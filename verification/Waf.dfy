/** What modules decide and what the pipeline makes of it. */
module Waf {
  import opened Bits
  import opened Seqs

  datatype Severity = Critical | Error | Warning | Notice

  datatype ScoreItem = ScoreItem(ruleId: string, severity: Severity)

  datatype Decision =
    | Allow
    | Block(ruleId: string, reason: string)
    | Monitor(ruleId: string)
    | Score(ruleId: string, points: u32)
    | Scores(items: seq<ScoreItem>)
    | Reject(ruleId: string, reason: string, status: nat, retryAfter: Option<nat>)

  datatype Phase = Connection | RequestLine | Headers | Body | Response
}
