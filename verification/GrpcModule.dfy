/** The structural gRPC module: its decision on a body, with the leaves switched off. */
module GrpcModule {
  import opened Bits
  import opened Grpc
  import opened GrpcBounds
  import opened GrpcFlags
  import opened GrpcRoundTrip

  datatype Policy = RejectCompressed | Passthrough
  datatype ModuleConfig = ModuleConfig(maxDepth: u32, maxFields: u32, maxMessageBytes: u64, onCompressed: Policy)
  datatype Verdict = Allow | Malformed | TooLarge | CompressedPayload | TooDeep | TooManyFields

  function Caps(cfg: ModuleConfig, maxLeaves: nat): Limits { Limits(cfg.maxDepth, cfg.maxFields, maxLeaves) }

  function Decide(body: seq<byte>, headerCompressed: bool, cfg: ModuleConfig, maxLeaves: nat): Verdict
  {
    var ex := Deframe(body, Caps(cfg, maxLeaves), EMPTY);
    if ex.malformed then Malformed
    else if ex.totalPayloadBytes > cfg.maxMessageBytes then TooLarge
    else if ex.compressed || headerCompressed then
      (if cfg.onCompressed.RejectCompressed? then CompressedPayload else Allow)
    else if ex.depthExceeded then TooDeep
    else if ex.fieldsExceeded then TooManyFields
    else Allow
  }

  /** Asking for no leaves does not change the decision. */
  lemma LeavesDoNotDecide(body: seq<byte>, headerCompressed: bool, cfg: ModuleConfig, maxLeaves: nat)
    ensures Decide(body, headerCompressed, cfg, 0) == Decide(body, headerCompressed, cfg, maxLeaves)
  {
    LeafCapOnlyTrimsLeaves(body, Caps(cfg, maxLeaves), 0);
  }

  /** Uncompressed message trees pass exactly when their payload, their depth and their fields are
      within the limits. Only more fields than the 32-bit counter holds could slip under the largest
      cap. */
  lemma TreesPassIffWithinLimits(ms: seq<seq<Field>>, cfg: ModuleConfig, lim: Limits)
    requires Framable(ms) && |ms| <= U32_MAX && lim == Caps(cfg, 0) && lim.maxDepth >= 1
    requires lim.maxFields == U32_MAX ==> AllFields(ms, lim.maxDepth - 1) <= U32_MAX
    ensures Decide(Body(ms), false, cfg, 0) == Allow <==>
      && PayloadBytes(ms) <= cfg.maxMessageBytes
      && Deepest(ms) <= lim.maxDepth
      && AllFields(ms, lim.maxDepth - 1) <= lim.maxFields
  {
    if AllFields(ms, lim.maxDepth - 1) <= lim.maxFields {
      ExtractionReadsTrees(ms, lim);
    } else {
      CapIsPassedIff(ms, lim);
      FramesAreUncompressed(ms, lim, EMPTY);
    }
  }

  /** Once the framing is read and the size is within its limit, a compressed frame or the header decides:
      the body is rejected or let through as configured, whatever else it holds. A malformed one never
      passes, nor does one too large. */
  lemma CompressionDecides(body: seq<byte>, headerCompressed: bool, cfg: ModuleConfig, maxLeaves: nat)
    requires headerCompressed || HoldsCompressedFrame(body)
    ensures var ex, d := Deframe(body, Caps(cfg, maxLeaves), EMPTY), Decide(body, headerCompressed, cfg, maxLeaves);
            && (ex.malformed ==> d == Malformed)
            && (!ex.malformed && ex.totalPayloadBytes > cfg.maxMessageBytes ==> d == TooLarge)
            && (!ex.malformed && ex.totalPayloadBytes <= cfg.maxMessageBytes ==>
                  d == match cfg.onCompressed case RejectCompressed => CompressedPayload case Passthrough => Allow)
  {
    CompressedIff(body, Caps(cfg, maxLeaves));
  }

  /** Without compression a body passes exactly when it is frames of good messages down to the last level,
      within the size limit and the field cap. So what is no good message never does, even where the field
      cap stops the reading before the fault. */
  lemma PlainPassesIff(body: seq<byte>, cfg: ModuleConfig, maxLeaves: nat)
    requires !HoldsCompressedFrame(body)
    ensures var ex := Deframe(body, Caps(cfg, maxLeaves), EMPTY);
            Decide(body, false, cfg, maxLeaves) == Allow <==>
              && GoodBody(body, LevelsBelow(1, Caps(cfg, maxLeaves)), true)
              && ex.totalPayloadBytes <= cfg.maxMessageBytes && ex.fields <= cfg.maxFields
  {
    CompressedIff(body, Caps(cfg, maxLeaves));
    FaultlessIff(body, Caps(cfg, maxLeaves));
    DeframeFlags(body, Caps(cfg, maxLeaves), EMPTY);
  }

  /** A rejection tells the truth. */
  lemma VerdictIsTrue(body: seq<byte>, headerCompressed: bool, cfg: ModuleConfig, maxLeaves: nat)
    ensures var ex, d := Deframe(body, Caps(cfg, maxLeaves), EMPTY), Decide(body, headerCompressed, cfg, maxLeaves);
            match d
            case Allow => !ex.malformed && ex.totalPayloadBytes <= cfg.maxMessageBytes
            case Malformed => !GoodBody(body, LevelsBelow(1, Caps(cfg, maxLeaves)), false)
            case TooLarge => ex.totalPayloadBytes > cfg.maxMessageBytes
            case CompressedPayload => headerCompressed || HoldsCompressedFrame(body)
            case TooDeep => ex.fields <= cfg.maxFields ==> !GoodBody(body, LevelsBelow(1, Caps(cfg, maxLeaves)), true)
            case TooManyFields => ex.fields > cfg.maxFields
  {
    CompressedIff(body, Caps(cfg, maxLeaves));
    MalformedIff(body, Caps(cfg, maxLeaves));
    FaultlessIff(body, Caps(cfg, maxLeaves));
    DeframeFlags(body, Caps(cfg, maxLeaves), EMPTY);
  }
}
