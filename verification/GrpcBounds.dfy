/** What extraction guarantees on every body, well formed or not. */
module GrpcBounds {
  import opened Bits
  import opened Grpc
  import Utf8

  function Cap<T>(s: seq<T>, n: nat): (r: seq<T>)
    ensures |r| == Min(|s|, n) && r <= s
  {
    if |s| <= n then s else s[..n]
  }

  // ---- the leaf cap changes nothing but the leaves ----

  /** `s` is `t` as it would be under the smaller leaf cap `small`. */
  ghost predicate Trimmed(s: Stats, t: Stats, small: nat, large: nat)
  {
    s == t.(leaves := Cap(t.leaves, small)) && |t.leaves| <= large
  }

  lemma {:induction false} WalkFieldsTrimmed(buf: seq<byte>, depth: u32, lim: Limits, small: nat, s: Stats, t: Stats)
    requires small <= lim.maxLeaves && Trimmed(s, t, small, lim.maxLeaves)
    ensures Trimmed(WalkFields(buf, depth, lim.(maxLeaves := small), s), WalkFields(buf, depth, lim, t), small,
                    lim.maxLeaves)
    decreases |buf|, 0
  {
    var lim' := lim.(maxLeaves := small);
    var tag := VarintAt(buf);
    if buf != [] && tag.Some? {
      var s1, t1 := s.(fields := Sat32(s.fields + 1)), t.(fields := Sat32(t.fields + 1));
      if s1.fields <= lim.maxFields {
        var rest := buf[tag.value.size..];
        var v := ReadValue(rest, tag.value.value % 8);
        AfterValueTrimmed(rest, v, depth, lim, small, s1, t1);
        assert WalkFields(buf, depth, lim', s) == AfterTag(rest, tag.value.value % 8, depth, lim', s1);
        assert WalkFields(buf, depth, lim, t) == AfterTag(rest, tag.value.value % 8, depth, lim, t1);
      }
    }
  }

  lemma {:induction false} AfterValueTrimmed(rest: seq<byte>, v: WireValue, depth: u32, lim: Limits, small: nat,
                                             s: Stats, t: Stats)
    requires Fits(rest, v)
    requires small <= lim.maxLeaves && Trimmed(s, t, small, lim.maxLeaves)
    ensures Trimmed(AfterValue(rest, v, depth, lim.(maxLeaves := small), s), AfterValue(rest, v, depth, lim, t), small,
                    lim.maxLeaves)
    decreases |rest|, 3
  {
    match v
    case Bad =>
    case Skip(n) => WalkFieldsTrimmed(rest[n..], depth, lim, small, s, t);
    case Chunk(a, e) =>
      TakeChunkTrimmed(rest[a..e], depth, lim, small, s, t);
      WalkFieldsTrimmed(rest[e..], depth, lim, small,
                        TakeChunk(rest[a..e], depth, lim.(maxLeaves := small), s),
                        TakeChunk(rest[a..e], depth, lim, t));
  }

  lemma {:induction false} TakeChunkTrimmed(field: seq<byte>, depth: u32, lim: Limits, small: nat, s: Stats, t: Stats)
    requires small <= lim.maxLeaves && Trimmed(s, t, small, lim.maxLeaves)
    ensures Trimmed(TakeChunk(field, depth, lim.(maxLeaves := small), s), TakeChunk(field, depth, lim, t), small,
                    lim.maxLeaves)
    decreases |field|, 2
  {
    if !Utf8.Valid(field) && depth < lim.maxDepth {
      WalkFieldsTrimmed(field, depth + 1, lim, small, s.(maxDepth := Max(s.maxDepth, depth + 1)),
                        t.(maxDepth := Max(t.maxDepth, depth + 1)));
    }
  }

  lemma FrameTrimmed(flag: byte, msg: seq<byte>, lim: Limits, small: nat, s: Stats, t: Stats)
    requires small <= lim.maxLeaves && |msg| <= U32_MAX && Trimmed(s, t, small, lim.maxLeaves)
    ensures Trimmed(TakeFrame(flag, msg, lim.(maxLeaves := small), s), TakeFrame(flag, msg, lim, t), small,
                    lim.maxLeaves)
  {
    var s1, t1 := CountFrame(|msg|, s), CountFrame(|msg|, t);
    WalkFieldsTrimmed(msg, 1, lim, small, s1.(maxDepth := Max(s1.maxDepth, 1)), t1.(maxDepth := Max(t1.maxDepth, 1)));
  }

  lemma {:induction false} DeframeTrimmed(body: seq<byte>, lim: Limits, small: nat, s: Stats, t: Stats)
    requires small <= lim.maxLeaves && Trimmed(s, t, small, lim.maxLeaves)
    ensures Trimmed(Deframe(body, lim.(maxLeaves := small), s), Deframe(body, lim, t), small, lim.maxLeaves)
    decreases |body|
  {
    if |body| >= 5 {
      var end := 5 + BigEndian32(body[1..5]);
      if end <= |body| {
        var msg := body[5..end];
        FrameTrimmed(body[0], msg, lim, small, s, t);
        DeframeTrimmed(body[end..], lim, small,
                       TakeFrame(body[0], msg, lim.(maxLeaves := small), s), TakeFrame(body[0], msg, lim, t));
      }
    }
  }

  /** The structural module asks for no leaves and the content channel for many: both see the
      same metrics, and a smaller cap yields a prefix of the leaves. */
  lemma LeafCapOnlyTrimsLeaves(body: seq<byte>, lim: Limits, small: nat)
    requires small <= lim.maxLeaves
    ensures var large := Deframe(body, lim, EMPTY);
            Deframe(body, lim.(maxLeaves := small), EMPTY) == large.(leaves := Cap(large.leaves, small))
  {
    DeframeTrimmed(body, lim, small, EMPTY, EMPTY);
  }

  // ---- fields and depth ----

  /** Levels a message at `depth` may still open, itself included. */
  function Levels(depth: nat, lim: Limits): nat
  {
    if depth <= lim.maxDepth then lim.maxDepth - depth + 1 else 1
  }

  /** `after` read at most `bytes` fields more than `before`, and past the cap at most one tag a level. */
  ghost predicate FieldsWithin(before: Stats, after: Stats, bytes: nat, levels: nat, lim: Limits)
  {
    && before.fields <= after.fields <= before.fields + bytes
    && after.fields <= (if before.fields > lim.maxFields then before.fields + 1 else lim.maxFields + levels)
    && after.maxDepth <= Max(before.maxDepth, Max(lim.maxDepth, 1))
    && before.maxDepth <= after.maxDepth
    && (before.malformed ==> after.malformed)
    && (|before.leaves| <= lim.maxLeaves ==> |after.leaves| <= lim.maxLeaves)
    && after.messages == before.messages && after.totalPayloadBytes == before.totalPayloadBytes
    && after.compressed == before.compressed
  }

  lemma {:induction false} WalkFieldsWithin(buf: seq<byte>, depth: u32, lim: Limits, s: Stats)
    requires depth <= Max(lim.maxDepth, 1)
    ensures FieldsWithin(s, WalkFields(buf, depth, lim, s), |buf|, Levels(depth, lim), lim)
    decreases |buf|, 0
  {
    var tag := VarintAt(buf);
    if buf != [] && tag.Some? {
      var s1 := s.(fields := Sat32(s.fields + 1));
      if s1.fields <= lim.maxFields {
        var rest := buf[tag.value.size..];
        AfterValueWithin(rest, ReadValue(rest, tag.value.value % 8), depth, lim, s1);
        assert WalkFields(buf, depth, lim, s) == AfterTag(rest, tag.value.value % 8, depth, lim, s1);
      }
    }
  }

  lemma {:induction false} AfterValueWithin(rest: seq<byte>, v: WireValue, depth: u32, lim: Limits, s: Stats)
    requires Fits(rest, v) && depth <= Max(lim.maxDepth, 1) && s.fields <= lim.maxFields
    ensures FieldsWithin(s, AfterValue(rest, v, depth, lim, s), |rest|, Levels(depth, lim), lim)
    decreases |rest|, 3
  {
    match v
    case Bad =>
    case Skip(n) => WalkFieldsWithin(rest[n..], depth, lim, s);
    case Chunk(a, e) =>
      var mid := TakeChunk(rest[a..e], depth, lim, s);
      TakeChunkWithin(rest[a..e], depth, lim, s);
      WalkFieldsWithin(rest[e..], depth, lim, mid);
  }

  lemma {:induction false} TakeChunkWithin(field: seq<byte>, depth: u32, lim: Limits, s: Stats)
    requires depth <= Max(lim.maxDepth, 1) && s.fields <= lim.maxFields
    ensures FieldsWithin(s, TakeChunk(field, depth, lim, s), |field|, Levels(depth, lim) - 1, lim)
    decreases |field|, 2
  {
    if !Utf8.Valid(field) && depth < lim.maxDepth {
      WalkFieldsWithin(field, depth + 1, lim, s.(maxDepth := Max(s.maxDepth, depth + 1)));
    }
  }

  // ---- whole bodies ----

  /** Everything a run from `before` over `bytes` bytes of frames keeps. */
  ghost predicate BodyWithin(before: Stats, after: Stats, bytes: nat, lim: Limits)
  {
    && before.messages <= after.messages && 5 * (after.messages - before.messages) <= bytes
    && before.totalPayloadBytes <= after.totalPayloadBytes
    && before.fields <= after.fields <= before.fields + (after.totalPayloadBytes - before.totalPayloadBytes)
    && (before.malformed ==> after.malformed)
    && (!after.malformed && after.messages < U32_MAX ==>
          5 * (after.messages - before.messages) + (after.totalPayloadBytes - before.totalPayloadBytes) == bytes)
    && after.maxDepth <= Max(before.maxDepth, Max(lim.maxDepth, 1))
    && (|before.leaves| <= lim.maxLeaves ==> |after.leaves| <= lim.maxLeaves)
    && (after.messages < U32_MAX ==>
          after.fields <= (if before.fields > lim.maxFields then before.fields + (after.messages - before.messages)
                           else lim.maxFields + Max(lim.maxDepth, 1) + (after.messages - before.messages) - 1))
  }

  lemma TakeFrameWithin(flag: byte, msg: seq<byte>, lim: Limits, s: Stats)
    requires |msg| <= U32_MAX && s.totalPayloadBytes + |msg| <= U64_MAX
    ensures FieldsWithin(CountFrame(|msg|, s), TakeFrame(flag, msg, lim, s), |msg|, Max(lim.maxDepth, 1), lim)
      || (TakeFrame(flag, msg, lim, s) == CountFrame(|msg|, s).(compressed := true))
  {
    if flag == 0 {
      var s1 := CountFrame(|msg|, s);
      WalkFieldsWithin(msg, 1, lim, s1.(maxDepth := Max(s1.maxDepth, 1)));
    }
  }

  lemma {:induction false} DeframeWithin(body: seq<byte>, lim: Limits, s: Stats)
    requires s.totalPayloadBytes + |body| <= U64_MAX
    ensures BodyWithin(s, Deframe(body, lim, s), |body|, lim)
    decreases |body|
  {
    if |body| >= 5 {
      var end := 5 + BigEndian32(body[1..5]);
      if end <= |body| {
        var mid := TakeFrame(body[0], body[5..end], lim, s);
        TakeFrameWithin(body[0], body[5..end], lim, s);
        DeframeWithin(body[end..], lim, mid);
        FrameAndRest(body[0], body[5..end], lim, s, Deframe(body[end..], lim, mid), |body| - end);
      }
    }
  }

  lemma FrameAndRest(flag: byte, msg: seq<byte>, lim: Limits, s: Stats, after: Stats, bytes: nat)
    requires |msg| <= U32_MAX && s.totalPayloadBytes + |msg| <= U64_MAX
    requires BodyWithin(TakeFrame(flag, msg, lim, s), after, bytes, lim)
    ensures BodyWithin(s, after, 5 + |msg| + bytes, lim)
  {
    TakeFrameWithin(flag, msg, lim, s);
    FrameThenRest(s, TakeFrame(flag, msg, lim, s), after, |msg|, bytes, lim);
  }

  lemma FrameThenRest(s: Stats, mid: Stats, after: Stats, len: u32, bytes: nat, lim: Limits)
    requires s.totalPayloadBytes + len <= U64_MAX
    requires FieldsWithin(CountFrame(len, s), mid, len, Max(lim.maxDepth, 1), lim)
      || mid == CountFrame(len, s).(compressed := true)
    requires BodyWithin(mid, after, bytes, lim)
    ensures BodyWithin(s, after, 5 + len + bytes, lim)
  {
  }

  // ---- the recorded depth ----

  /** Some frame that is there whole is not compressed. */
  predicate HoldsPlainFrame(body: seq<byte>)
    decreases |body|
  {
    |body| >= 5 &&
    (var end := 5 + BigEndian32(body[1..5]);
     end <= |body| && (body[0] == 0 || HoldsPlainFrame(body[end..])))
  }

  lemma FrameDepth(flag: byte, msg: seq<byte>, lim: Limits, s: Stats)
    requires |msg| <= U32_MAX
    ensures TakeFrame(flag, msg, lim, s).maxDepth > lim.maxDepth
      <==> s.maxDepth > lim.maxDepth || (lim.maxDepth == 0 && flag == 0)
  {
    var s1 := CountFrame(|msg|, s);
    if flag == 0 { WalkFieldsWithin(msg, 1, lim, s1.(maxDepth := Max(s1.maxDepth, 1))); }
  }

  lemma {:induction false} DeframeDepth(body: seq<byte>, lim: Limits, s: Stats)
    ensures Deframe(body, lim, s).maxDepth > lim.maxDepth
      <==> s.maxDepth > lim.maxDepth || (lim.maxDepth == 0 && HoldsPlainFrame(body))
    decreases |body|
  {
    if |body| >= 5 {
      var end := 5 + BigEndian32(body[1..5]);
      if end <= |body| {
        FrameDepth(body[0], body[5..end], lim, s);
        DeframeDepth(body[end..], lim, TakeFrame(body[0], body[5..end], lim, s));
      }
    }
  }

  /** The recorded depth is at most the cap, on every body, but for one case: under a cap of zero a
      frame that is read counts one level all the same. */
  lemma DepthPassesCapIff(body: seq<byte>, lim: Limits)
    ensures Deframe(body, lim, EMPTY).maxDepth > lim.maxDepth <==> lim.maxDepth == 0 && HoldsPlainFrame(body)
  {
    DeframeDepth(body, lim, EMPTY);
  }

  /** One empty frame does it. */
  lemma EmptyFramePassesCap(body: seq<byte>, lim: Limits)
    requires body == [0, 0, 0, 0, 0] && lim.maxDepth == 0
    ensures Deframe(body, lim, EMPTY).maxDepth == 1
  {
    assert body[1..5] == [0, 0, 0, 0] && body[5..5] == [] && body[5..] == [];
  }

  // ---- the flag of the field cap ----

  /** The flag tells whether the count is past the cap. */
  predicate Flagged(s: Stats, lim: Limits) { s.fieldsExceeded <==> s.fields > lim.maxFields }

  /** From a record that is flagged, to one that is; and a count past the cap stays past it. */
  predicate KeepsFlag(before: Stats, after: Stats, lim: Limits)
  {
    && (Flagged(before, lim) ==> Flagged(after, lim))
    && (before.fields > lim.maxFields ==> after.fields > lim.maxFields)
  }

  lemma {:induction false} WalkFieldsFlags(buf: seq<byte>, depth: u32, lim: Limits, s: Stats)
    ensures KeepsFlag(s, WalkFields(buf, depth, lim, s), lim)
    decreases |buf|, 0
  {
    var tag := VarintAt(buf);
    if buf != [] && tag.Some? {
      var s1, rest := s.(fields := Sat32(s.fields + 1)), buf[tag.value.size..];
      if s1.fields <= lim.maxFields {
        AfterValueFlags(rest, ReadValue(rest, tag.value.value % 8), depth, lim, s1);
        assert WalkFields(buf, depth, lim, s) == AfterTag(rest, tag.value.value % 8, depth, lim, s1);
      }
    }
  }

  lemma {:induction false} AfterValueFlags(rest: seq<byte>, v: WireValue, depth: u32, lim: Limits, s: Stats)
    requires Fits(rest, v)
    ensures KeepsFlag(s, AfterValue(rest, v, depth, lim, s), lim)
    decreases |rest|, 3
  {
    match v
    case Bad =>
    case Skip(n) => WalkFieldsFlags(rest[n..], depth, lim, s);
    case Chunk(a, e) =>
      TakeChunkFlags(rest[a..e], depth, lim, s);
      WalkFieldsFlags(rest[e..], depth, lim, TakeChunk(rest[a..e], depth, lim, s));
  }

  lemma {:induction false} TakeChunkFlags(field: seq<byte>, depth: u32, lim: Limits, s: Stats)
    ensures KeepsFlag(s, TakeChunk(field, depth, lim, s), lim)
    decreases |field|, 2
  {
    if !Utf8.Valid(field) && depth < lim.maxDepth {
      WalkFieldsFlags(field, depth + 1, lim, s.(maxDepth := Max(s.maxDepth, depth + 1)));
    }
  }

  lemma TakeFrameFlags(flag: byte, msg: seq<byte>, lim: Limits, s: Stats)
    requires |msg| <= U32_MAX
    ensures KeepsFlag(s, TakeFrame(flag, msg, lim, s), lim)
  {
    var s1 := CountFrame(|msg|, s);
    if flag == 0 { WalkFieldsFlags(msg, 1, lim, s1.(maxDepth := Max(s1.maxDepth, 1))); }
  }

  lemma {:induction false} DeframeFlags(body: seq<byte>, lim: Limits, s: Stats)
    ensures KeepsFlag(s, Deframe(body, lim, s), lim)
    decreases |body|
  {
    if |body| >= 5 {
      var end := 5 + BigEndian32(body[1..5]);
      if end <= |body| {
        TakeFrameFlags(body[0], body[5..end], lim, s);
        DeframeFlags(body[end..], lim, TakeFrame(body[0], body[5..end], lim, s));
      }
    }
  }

  /** The bounds the fuzz target re-checks and the ones the module relies on, for all bodies.
      The frame headers and payloads account for every byte of a body that is not malformed.
      `fields` may pass `maxFields`, which is when its flag is set, but only by one tag a level
      and one a later frame. */
  lemma ExtractBounds(body: seq<byte>, lim: Limits)
    requires |body| <= U64_MAX
    ensures var r := Deframe(body, lim, EMPTY);
            && 5 * r.messages <= |body|
            && r.maxDepth <= Max(lim.maxDepth, 1)
            && (r.maxDepth > lim.maxDepth <==> lim.maxDepth == 0 && HoldsPlainFrame(body))
            && |r.leaves| <= lim.maxLeaves
            && r.fields <= r.totalPayloadBytes
            && (r.fieldsExceeded <==> r.fields > lim.maxFields)
            && r.fields <= lim.maxFields + Max(lim.maxDepth, 1) + r.messages - 1
            && (!r.malformed && r.messages < U32_MAX ==> 5 * r.messages + r.totalPayloadBytes == |body|)
  {
    DeframeWithin(body, lim, EMPTY);
    DeframeFlags(body, lim, EMPTY);
    DepthPassesCapIff(body, lim);
  }
}
