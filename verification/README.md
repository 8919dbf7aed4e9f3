# Verified model of the WAF core

A Dafny 4.11 model of the parts of this web application firewall where a small slip changes a
decision: the hand-written decoders and parsers, the CRS rule engine, the pipeline with its content
prefilter, the token-bucket store, and the pool of WASM instances. The code's loops and stateful
objects are methods and classes, each proved against a specification function; the promises of the
design are theorems about those functions, for all inputs or all runs.

`dafny verify dfyconfig.toml` checks everything.

| file | what it models |
|---|---|
| `Bits`, `Seqs`, `Utf8`, `Utf8Encoding` | machine words, splitting and searching, well-formed UTF-8 and the encoding it is |
| `Grpc`, `GrpcBounds`, `GrpcFlags`, `GrpcRoundTrip`, `GrpcModule` | gRPC framing and the schema-less protobuf walk, its bounds and flags on every body, the encoders it inverts, and the module that decides on what it records |
| `Graphql`, `GraphqlTokens`, `GraphqlComments`, `GraphqlTree`, `GraphqlModule` | the one-pass GraphQL lexer, the lexical grammar it reads, where the two end a comment differently, the documents whose measures it computes, and the module that decides on them |
| `Percent`, `PercentForms`, `Base64`, `Base64Layers` | percent and overlong decoding under a budget and the forms it undoes, base64 and derived variants, payloads under layers of both |
| `Query`, `QueryPieces`, `Paths` | query parsing whole and piece by piece, path resolution |
| `Multipart`, `MultipartHeaders`, `MultipartRoundTrip` | the multipart parser, what its header blocks say, and the form layout it inverts |
| `HeaderMap` | the Proxy-Wasm header-map format |
| `TokenBucket`, `TokenRefusals`, `RateLimit` | the token-bucket store, the rate it bounds and the rate it gives, and the module that uses it |
| `Pool`, `PoolDeadlines` | the checkout and checkin protocol as interleaved steps, and how long a checkout waits |
| `Waf`, `Pipeline`, `PipelineOrder`, `PipelineVerdicts` | decisions, the module pipeline, the order it runs in and what it answers |
| `Content`, `ContentVerdicts`, `Prefilter`, `PrefilterVerdicts` | the content modules and what they report, the fast path and what it lets through |
| `CrsAst`, `CrsLexer`, `CrsLexerRoundTrip`, `CrsQuoting`, `CrsWriting` | the seclang lexer, a printer it inverts, and the lines it reads as they may be written |
| `CrsParse`, `CrsGroups`, `CrsLoading` | the rule parser, its groups, and which rules an import keeps |
| `CrsEngine`, `CrsVerdicts` | the bucketed evaluator, and what rules decide in terms of texts |

Conventions: bytes are `int` values below 256 and every shift, mask, wrap and saturation is written
out; `usize` is the 64-bit one and lengths never overflow it; tokens and times are reals. Foreign
code is a parameter: the regular-expression engine (whether a pattern compiles, whether a list of
patterns compiles into one set, whether a pattern matches a text), NFKC and lossy UTF-8 decoding,
CRS target extraction and transforms, and the parsing inside one seclang token.

Where the code differs from what it says of itself:

- `crates/waf-core/src/testkit.rs:151-153` says that an encoded query value comes back exactly.
  Decoding is recursive, so this holds if and only if the value has no escape and no overlong pair of
  its own: `Percent.EncodedValueComesBackIff`, `Query.QueryComesBackIff`, and the counterexample
  `Percent.EscapedValueIsLost`.
- `crates/waf-core/src/state.rs:146-148` calls an idle bucket indistinguishable from a fresh key. The
  clock is read before the lock is taken, so a stale reading can tell them apart
  (`TokenBucket.StaleRunDiffers`); for readings in lock order it cannot
  (`TokenBucket.EvictionIsUnobservable`), and `TokenBucket.EvictionIsHiddenIff` gives the exact
  condition for whole runs under any clock: every evicted bucket is full at the reading of the call that
  asks for it.
- `crates/waf-normalizer/src/url.rs:149-150` says that a base64 candidate has a length that is a
  multiple of four; the code asks only that the length without padding is not one more than that
  (`Base64.CandidateIff`), so every length from two on is the length of a candidate
  (`Base64.CandidateLengths`).
- `crates/waf-normalizer/src/graphql.rs:54-64` skips the byte after any backslash in a block string, where
  the GraphQL Specification (section 2.9.4) gives a backslash a meaning only before a triple quote:
  `GraphqlTokens.BlockIsWholeIff` says which texts are read to their end and
  `GraphqlTokens.EscapedBackslashEndsBlock` gives one that is not. And a comment ends at a newline only, where
  a carriage return ends it too in the grammar (section 2.1.2): `GraphqlComments.BraceBehindReturn` gives a
  line whose depth differs and `GraphqlComments.CarriageReturnEndsCommentIff` says when the two readings agree.
- The gRPC field count may pass its cap, which is exactly when its flag is set, by one tag a level and one
  a later frame: `GrpcBounds.ExtractBounds` states the bounds that hold, and
  `GrpcRoundTrip.FieldsPassTheCap` a body that reaches them.
- `crates/waf-normalizer/src/grpc.rs:56` says that the recorded depth is at most the cap. It is, but for a cap
  of zero and a body with an uncompressed frame: `GrpcBounds.DepthPassesCapIff`, and
  `GrpcBounds.EmptyFramePassesCap` for five zero bytes.
- The score is a 32-bit counter. With overflow, the final score of a run at the largest threshold need
  not decide a replay (`Pipeline.OverflowHidesScore`); `Pipeline.ReplayIsRightIff` says exactly when it does,
  and the peak of the run always decides (`Pipeline.DeniesIffPeakReached`).
- A panic of the guest call loses its instance for good: `Pool.InstancesAreConserved` counts them.
- A `SecRuleRemoveById` in an open chain cuts it in two (`CrsGroups.RemovalCutsOpenChain`); it only filters
  rules exactly when it stands anywhere else (`CrsGroups.RemovalOnlyFiltersIff`).

## Model

| member | source | states |
|---|---|---|
| Grpc.ReadVarint | crates/waf-normalizer/src/grpc.rs:71-82 | reads the first at most ten base-128 groups, modulo 2^64, and stops after the last; otherwise nothing |
| Grpc.GrpcExtract.ParseMessage | crates/waf-normalizer/src/grpc.rs:121-198 | one message at one depth changes the counters and leaves as the recursive specification of the walk says |
| Grpc.GrpcExtract.Extract | crates/waf-normalizer/src/grpc.rs:85-117 | a whole body of frames leaves exactly the record of the specification |
| GrpcFlags.CompressedIff | crates/waf-normalizer/src/grpc.rs:103-111 | on every body the compressed flag is set exactly when some whole frame has the flag byte 1 |
| GrpcFlags.MalformedIff | crates/waf-normalizer/src/grpc.rs:85-198 | a body called malformed is not frames of well-formed fields, and one that is not is called so unless the field cap ended a message before |
| GrpcFlags.FaultlessIff | crates/waf-normalizer/src/grpc.rs:85-198 | within the field cap a body is neither malformed nor too deep exactly when all of it, down to the last level, is well-formed fields |
| GrpcFlags.VarintEnds | crates/waf-normalizer/src/grpc.rs:71-82 | a varint is there exactly when one of the first ten bytes is below 0x80, and ends at the first |
| Utf8Encoding.ValidIff | crates/waf-normalizer/src/grpc.rs:173 | the test behind `from_utf8` holds exactly for the encodings of scalar values |
| GrpcBounds.LeafCapOnlyTrimsLeaves | crates/waf-detection/src/grpc.rs:100-107 | on every body the leaf cap changes nothing but the leaves, and a smaller cap gives a prefix |
| GrpcBounds.ExtractBounds | crates/waf-normalizer/src/grpc.rs:85-198 | on every body: the field flag set exactly past the cap, fields, depth (with the one case in which it passes its cap), leaves and frames within their bounds, and frame headers plus payloads accounting for every byte of a body that is not malformed |
| GrpcBounds.DepthPassesCapIff | crates/waf-normalizer/src/grpc.rs:56-57 | on every body the recorded depth passes the cap exactly when the cap is zero and some frame is read whole and uncompressed |
| GrpcBounds.EmptyFramePassesCap | crates/waf-normalizer/src/grpc.rs:56-57 | the body of one empty frame, for which it does |
| GrpcRoundTrip.FieldsPassTheCap | crates/waf-normalizer/src/grpc.rs:129-133 | a body of two frames whose field count passes the cap and reaches that bound |
| GrpcRoundTrip.AppendVarint | crates/waf-corpus/src/runner.rs:260-272 | the push loop appends the base-128 encoding |
| GrpcRoundTrip.VarintRoundTrip | crates/waf-normalizer/src/grpc.rs:71-82 | every 64-bit number is read back from its encoding, whatever follows |
| GrpcRoundTrip.TreeIsWalked | crates/waf-normalizer/src/grpc.rs:121-198 | walking an encoded message tree from any record adds the tree's own fields, levels and leaves |
| GrpcRoundTrip.ExtractionReadsTrees | crates/waf-corpus/src/runner.rs:275-311 | extracting framed message trees gives their frame count, bytes, fields and leaves in order, no malformed flag, and the depth flag exactly when a tree is too deep |
| GrpcRoundTrip.RoomBeyondHeight | crates/waf-normalizer/src/grpc.rs:164-189 | a tree no deeper than the cap is counted whole |
| GrpcModule.LeavesDoNotDecide | crates/waf-detection/src/grpc.rs:100-132 | asking the parser for no leaves does not change the module's decision |
| GrpcRoundTrip.CapIsPassedIff | crates/waf-normalizer/src/grpc.rs:129-133 | the field flag is set exactly when the trees have more fields than the cap |
| GrpcModule.TreesPassIffWithinLimits | crates/waf-detection/src/grpc.rs:109-132 | uncompressed trees pass exactly when size, depth and field count are within the limits |
| GrpcModule.CompressionDecides | crates/waf-detection/src/grpc.rs:109-126 | with a compressed frame or header a body that is read and not too large is rejected or passed as configured; malformed and too large ones are rejected |
| GrpcModule.PlainPassesIff | crates/waf-detection/src/grpc.rs:109-132 | without compression a body passes exactly when it is frames of well-formed messages down to the last level, within the size limit and the field cap |
| GrpcModule.VerdictIsTrue | crates/waf-detection/src/grpc.rs:109-132 | every rejection names a fault the body has |
| Graphql.GraphqlLex | crates/waf-normalizer/src/graphql.rs:36-132 | the index loop computes the token-by-token specification; no counter overflows below 2^32 bytes |
| Graphql.CountsWithinLength | crates/waf-normalizer/src/graphql.rs:36-132 | on any input depth, aliases, fields and directives together are at most the length |
| GraphqlTokens.LexPrintedTokens | crates/waf-normalizer/src/graphql.rs:45-131 | lexing any list of GraphQL tokens as it may be written, words and strings kept apart only where the grammar asks for it, counts token by token |
| GraphqlTokens.BlockIsWholeIff | crates/waf-normalizer/src/graphql.rs:54-64 | a block string is read to its end, whatever follows, exactly when each triple quote and each start of one in it is behind a backslash |
| GraphqlTokens.EscapedBackslashEndsBlock | crates/waf-normalizer/src/graphql.rs:54-64 | a block string of the grammar that the lexer ends early |
| GraphqlComments.CarriageReturnEndsCommentIff | crates/waf-normalizer/src/graphql.rs:47-53 | reading on after a carriage return in a comment gives the same counts, in every state and before any text, exactly when what stands between it and the newline is inert: strings closed, parentheses balanced, names, colons and braces only inside them, no `@` |
| GraphqlComments.BraceBehindReturn | crates/waf-normalizer/src/graphql.rs:47-53 | a comment with a brace behind a carriage return: depth one in the grammar, none to the lexer |
| GraphqlTokens.IgnoredTokensDoNotCount | crates/waf-normalizer/src/graphql.rs:126-129 | white space, commas and comments between tokens, inside parentheses too, never change the counts |
| GraphqlTree.LexMeasuresDocument | crates/waf-normalizer/src/graphql.rs:36-132 | lexing a document written in any way gives its selection depth, alias, name and directive counts and introspection flag |
| GraphqlTree.EveryDocumentIsWritten | crates/waf-normalizer/src/graphql.rs:36-132 | every document tree has a written form of the kind the theorem is about |
| GraphqlTree.ShortestDocument | crates/waf-normalizer/src/graphql.rs:36-132 | one of them is a single name between braces, with nothing else |
| GraphqlModule.Inspect | crates/waf-detection/src/graphql.rs:144-178 | the loop over operations gives the verdict on the first that does not pass |
| GraphqlModule.DocumentsPassIff | crates/waf-detection/src/graphql.rs:144-178 | a batch of documents written in any way passes exactly when there are not too many and each tree is within the limits, with neither `__schema` nor `__type` among its names where introspection is blocked |
| GraphqlModule.VerdictIsTrue | crates/waf-detection/src/graphql.rs:156-178 | a rejection names a limit that the first operation not to pass exceeds |
| GraphqlModule.BatchWraps | crates/waf-detection/src/graphql.rs:153 | 2^32 operations pass any limit on their number |
| Percent.PercentDecodeBytes | crates/waf-normalizer/src/url.rs:107-123 | the loop decodes from the left, one escape or byte at a time |
| Percent.Collapse | crates/waf-normalizer/src/url.rs:500-515 | the loop replaces each overlong pair by the character it stands for |
| Percent.PercentOverlongFixpoint | crates/waf-normalizer/src/url.rs:128-141 | the passes and the budget left add up to the budget given, and the result is the fixpoint specification |
| Percent.FixpointIsStable | crates/waf-normalizer/src/url.rs:125-141 | the whole budget is used or nothing decodable is left, in which case further runs change nothing; the result is never longer |
| Percent.PassesAreBounded | crates/waf-normalizer/src/url.rs:128-141 | without a budget the loop ends too: at most one pass a byte, and one more for the form pass |
| Percent.EncQueryComponent | crates/waf-core/src/testkit.rs:154-165 | the loop escapes the three characters that change query parsing |
| Percent.EncodedValueComesBackIff | crates/waf-core/src/testkit.rs:151-165 | an encoded value decodes to itself if and only if it has nothing decodable of its own |
| Percent.EscapedValueIsLost | crates/waf-core/src/testkit.rs:151-153 | a value for which the documented round trip fails |
| Percent.BudgetUndoesLayers | crates/waf-normalizer/src/url.rs:128-141 | a budget of n undoes exactly n layers of encoding over a fully decoded value |
| PercentForms.EscapesComeBack | crates/waf-normalizer/src/url.rs:107-123 | any bytes come back from their escapes in one pass, in whichever case each digit is written |
| PercentForms.PlusIsSpace | crates/waf-normalizer/src/url.rs:107-123 | without escapes a form turns each `+` into a space and leaves every other byte |
| PercentForms.WidenedComesBack | crates/waf-normalizer/src/url.rs:500-515 | seven-bit text comes back from overlong pairs |
| PercentForms.LayersAreSeen | crates/waf-normalizer/src/url.rs:79-84 | canonicalization undoes five layers of encoding and no more, and flags exactly two layers or more that escape something |
| Base64.Base64Decode | crates/waf-normalizer/src/url.rs:172-195 | the wrapping 32-bit accumulator computes the decoding defined on carried bits |
| Base64.DecodedLength | crates/waf-normalizer/src/url.rs:154-195 | a string decodes exactly when it is of the alphabet up to its padding, to floor(6n/8) bytes; every candidate decodes |
| Base64.CandidateIff | crates/waf-normalizer/src/url.rs:154-167 | a string of the alphabet with any padding is a candidate exactly when it is long enough and its core is not empty nor one letter over whole groups |
| Base64.CandidateLengths | crates/waf-normalizer/src/url.rs:149-167 | the lengths of candidates are all numbers from two on, not the multiples of four |
| Base64.Base64RoundTrip | crates/waf-normalizer/src/url.rs:169-195 | decoding inverts the standard encoding (section 4 of RFC 4648), padded or not, for every byte string |
| Base64.ExpandBase64 | crates/waf-normalizer/src/url.rs:217-232 | the recursion over the shared budget pushes the variants of the specification in order |
| Base64Layers.LayersAreOpened | crates/waf-normalizer/src/url.rs:217-232 | expanding a payload under layers of base64 pushes what the payload itself expands to, then the payload and each layer inside the outermost, innermost first, as far as the budget goes |
| Base64Layers.PayloadIsSeenIff | crates/waf-normalizer/src/url.rs:212-232 | so the payload is among the derived variants exactly when the budget has a unit for each layer |
| Base64Layers.CarriedIsDecoded | crates/waf-normalizer/src/url.rs:217-232 | the variant pushed last is the canonical text of what the value carries, as far as the rest of the budget decodes it |
| Base64Layers.PercentLayersAreSeen | crates/waf-normalizer/src/url.rs:217-232 | so a payload under percent layers inside base64 is among the variants when the budget is enough for all |
| Base64Layers.MostlyPrintableIff | crates/waf-normalizer/src/url.rs:200-209 | mostly printable means that at most one byte in ten is not |
| Base64Layers.AlphabetIs | crates/waf-normalizer/src/url.rs:172-195 | the alphabet is the 64 letters and nothing else |
| Base64.BudgetIsConserved | crates/waf-normalizer/src/url.rs:96-98 | budget spent is decoding passes plus variants pushed, exactly |
| Paths.ResolvePath | crates/waf-normalizer/src/url.rs:550-570 | the segment loop and the rendering loop compute the stack specification |
| Paths.ResolvedIsClean | crates/waf-normalizer/src/url.rs:550-570 | the result starts with a slash and has no empty, `.` or `..` segment |
| Paths.ResolveTwice | crates/waf-normalizer/src/url.rs:550-570 | resolution is idempotent |
| Paths.ResolvePrefix | crates/waf-normalizer/src/url.rs:550-570 | a prefix may be resolved beforehand without changing the result |
| Paths.ParentUndoesChild | crates/waf-normalizer/src/url.rs:554-558 | `..` takes back exactly the segment before it, and does nothing above the root |
| Paths.StayingChangesNothing | crates/waf-normalizer/src/url.rs:554-556 | `.` and empty segments inside any path change nothing |
| Paths.EdgesChangeNothing | crates/waf-normalizer/src/url.rs:550-570 | nor do a trailing `/` or `/.`, or one more leading slash |
| Paths.CleanPathIsKept | crates/waf-normalizer/src/url.rs:550-570 | ordinary segments behind slashes resolve to themselves |
| Query.CanonicalizeValue | crates/waf-normalizer/src/url.rs:79-84 | the canonical text, and the double-encoding flag exactly from two passes on |
| Query.ParseQuery | crates/waf-normalizer/src/url.rs:580-611 | the limit error exactly when there are more nonempty pieces than allowed, and otherwise each piece decoded on its own, in order |
| QueryPieces.JoinedQueries | crates/waf-normalizer/src/url.rs:580-611 | two queries joined by `&` give what they give apart, pairs, flag and variants, or the limit error exactly when they are too many |
| QueryPieces.EmptyPiecesDoNotCount | crates/waf-normalizer/src/url.rs:589-591 | doubled, leading and trailing ampersands change nothing |
| QueryPieces.PieceIsPair | crates/waf-normalizer/src/url.rs:595-608 | one piece is one pair cut at its first `=`, or a name without a value; variants come from the value alone |
| Query.Request.AddQuery | crates/waf-core/src/testkit.rs:105-115 | appending keeps the string equal to the pairs added so far |
| Query.QueryRoundTrip | crates/waf-core/src/testkit.rs:101-115 | the query built from any list of carriable pairs parses to the same pairs in order, none taken for doubly encoded |
| Query.PairComesBackIff | crates/waf-core/src/testkit.rs:101-115 | one pair whose sides decode to canonical text comes back if and only if its name has no `=` and neither side has anything decodable |
| Query.QueryComesBackIff | crates/waf-core/src/testkit.rs:101-115 | and a whole query within the limit does if and only if all its pairs do |
| Multipart.FindBytes | crates/waf-normalizer/src/body.rs:199-210 | the first occurrence at or after a position, none for an empty needle |
| Multipart.FindCrlf | crates/waf-normalizer/src/body.rs:188-197 | the first CRLF at or after a position |
| Multipart.FindIsFirst | crates/waf-normalizer/src/body.rs:199-210 | what is found is the first occurrence, and nothing is found only when there is none |
| Multipart.ParsePartHeaders | crates/waf-normalizer/src/body.rs:166-186 | the header lines up to the empty one, trimmed, or nothing when a line is missing or not UTF-8 |
| Multipart.ParseMultipart | crates/waf-normalizer/src/body.rs:90-164 | the position loop ends on every body and returns the named parts of the specification |
| Multipart.ParsedIsSound | crates/waf-normalizer/src/body.rs:124-160 | every part of any body has a name and data free of boundary lines |
| MultipartHeaders.PaddedHeader | crates/waf-normalizer/src/body.rs:178-182 | a header is its name and its value however they are padded with white space |
| MultipartHeaders.LineWithoutColon | crates/waf-normalizer/src/body.rs:178-182 | a line without a colon is passed over |
| MultipartHeaders.OtherHeader | crates/waf-normalizer/src/body.rs:134-159 | a header of any other name changes nothing |
| MultipartHeaders.OtherParam | crates/waf-normalizer/src/body.rs:141-152 | nor does a parameter with another key or none |
| MultipartHeaders.LastNameCounts | crates/waf-normalizer/src/body.rs:141-152 | of several names or filenames the last counts |
| MultipartHeaders.LastContentType | crates/waf-normalizer/src/body.rs:154-156 | and of several content types |
| MultipartRoundTrip.ContentIsWholeIff | crates/waf-normalizer/src/body.rs:124-130 | content is cut at the boundary sent after it exactly when it holds no boundary line |
| MultipartRoundTrip.UploadsComeBackIff | crates/waf-corpus/src/runner.rs:231-244 | an assembled body parses to exactly the names, filenames and contents sent, in order, if and only if no content holds a boundary line |
| MultipartRoundTrip.CorpusWordsAreKnown | crates/waf-corpus/src/runner.rs:233-240 | the runner's header names, keys and content type are among those the theorem covers |
| HeaderMap.EncodeHeaderMapPairs | crates/waf-wasm/src/marshal.rs:35-49 | the two loops write the count, the size table and the contents |
| HeaderMap.DecodeHeaderMapPairs | crates/waf-wasm/src/marshal.rs:54-85 | the offset loops compute the decoding specification and reject every malformed buffer |
| HeaderMap.DecodesIffEncoded | crates/waf-wasm/src/marshal.rs:28-85 | a buffer decodes to given pairs if and only if their sizes are 32-bit and it starts with their encoding |
| HeaderMap.RoundTripIff | crates/waf-wasm/src/marshal.rs:35-85 | the round trip holds exactly for 32-bit counts and sizes |
| TokenBucket.InMemoryStateStore.TryAcquire | crates/waf-core/src/state.rs:165-191 | one call sweeps when a new key meets the cap, refills, and takes the cost exactly when it is there |
| TokenBucket.SweptIff | crates/waf-core/src/state.rs:149-155 | a sweep drops a bucket exactly when even an empty one of its age would be full again, changes no other, and drops none without a refill |
| TokenBucket.EvictionShowsIff | crates/waf-core/src/state.rs:146-148 | forgetting a bucket is visible at a reading exactly when it is not full again by then |
| TokenBucket.EvictionIsUnobservable | crates/waf-core/src/state.rs:146-191 | over every run with readings in order, all decisions and levels are those of a store that never evicts |
| TokenBucket.EvictionIsHiddenIff | crates/waf-core/src/state.rs:146-191 | whatever the clock and the costs, a run gives the results of a store that never evicts if and only if every evicted bucket is full at the reading of the call that asks for it |
| TokenBucket.EvictionShowsInRunIff | crates/waf-core/src/state.rs:146-191 | so an eviction first shows at a call whose key was evicted and whose bucket is not full at the reading, whatever the call costs |
| TokenBucket.FullBucketsHide | crates/waf-core/src/state.rs:146-191 | and a run from an empty store in which that never happens gives the results of a store that never evicts |
| TokenBucket.StaleRunDiffers | crates/waf-core/src/state.rs:166-191 | a run of three calls with a stale reading whose last call is admitted by the evicting store and refused by the other |
| TokenBucket.TokensStayInRange | crates/waf-core/src/state.rs:182-190 | every level of every run stays between zero and the capacity |
| TokenBucket.TotalWithinLevel | crates/waf-core/src/state.rs:165-191 | the potential argument behind the rate bound, for any store and any clock |
| TokenBucket.WindowBound | crates/waf-core/src/state.rs:80-97 | in any window of any run, whatever the clock, a key is admitted at most the capacity plus the refill over the time readings moved forward |
| TokenBucket.WindowBoundInOrder | crates/waf-core/src/state.rs:80-97 | for readings in order that is the capacity plus the refill over the length of the window |
| TokenRefusals.RefusedOnlyIfUsed | crates/waf-core/src/state.rs:165-191 | with readings in order a call is refused only when from some moment on its key was admitted so much that with this call it would pass the capacity and the refill since |
| TokenRefusals.OthersAreInUse | crates/waf-core/src/state.rs:149-175 | after a call that tracks a new key the store is within its cap, or every other bucket is too young to be full again |
| TokenBucket.RetryAfterIsExact | crates/waf-detection/src/rate_limit.rs:64-69 | after the advised wait a token is there, and a whole second less is not enough unless one second was advised |
| TokenBucket.WaitingAdmitsIff | crates/waf-detection/src/rate_limit.rs:64-69 | a refused key that waits undisturbed is admitted if and only if tokens are refilled, whatever other keys do and whether or not it is evicted |
| RateLimit.ConfiguredRateHolds | crates/waf-detection/src/rate_limit.rs:86-97 | over any span no longer than the configured window a client is admitted at most the burst and the configured requests |
| RateLimit.ConfiguredRateIsGiven | crates/waf-detection/src/rate_limit.rs:86-97 | the configured rate is also given: a refused request would pass the burst and the configured requests of the time since some moment |
| RateLimit.RequestAllowsIff | crates/waf-detection/src/rate_limit.rs:99-143 | an enabled module lets a client in exactly when a token is there, and otherwise rejects with a wait of at least a second or scores, as configured |
| RateLimit.RateLimitModule.Inspect | crates/waf-detection/src/rate_limit.rs:99-143 | the decision and the store after one request |
| RateLimit.AdviceIsExact | crates/waf-detection/src/rate_limit.rs:64-69 | the advice never saturates its 64-bit field |
| RateLimit.BlockedClientReturns | crates/waf-detection/src/rate_limit.rs:99-130 | a blocked client that stays away for the advised time is allowed again if and only if the configuration refills |
| Pool.Runtime.TryPop | crates/waf-wasm/src/runtime.rs:139-141 | takes the instance pushed last, exactly when there is one |
| Pool.Runtime.WaitOrGiveUp | crates/waf-wasm/src/runtime.rs:142-147 | gives up at the deadline and otherwise parks, releasing the lock |
| Pool.ReturnedIsNext | crates/waf-wasm/src/runtime.rs:152-154 | the instance returned is the one the next checkout gets, even before the notification |
| Pool.InstancesAreConserved | crates/waf-wasm/src/runtime.rs:135-185 | in every interleaving each instance is pooled, held or lost to a panic, in exactly one place, and together they are the pool size |
| Pool.HoldersDiffer | crates/waf-wasm/src/runtime.rs:135-155 | no instance has two holders, and none is held and pooled |
| Pool.NoLostWakeup | crates/waf-wasm/src/runtime.rs:135-155 | while a thread is parked, pooled instances are at most the woken threads that have not yet looked and the notifications to come |
| Pool.GivesUpOnlyEmpty | crates/waf-wasm/src/runtime.rs:139-145 | checkout fails only on an empty pool at or after its deadline |
| PoolDeadlines.WaitsTheTimeout | crates/waf-wasm/src/runtime.rs:135-150 | in every interleaving a thread gives up only when the timeout has passed since it got the lock first, and waits again only when it has not |
| Pool.NoDeadlock | crates/waf-wasm/src/runtime.rs:135-155 | every thread can move, or the mutex is taken and its holder can |
| Pipeline.Executor.RunPhasesFiltered | crates/waf-pipeline/src/lib.rs:177-312 | the nested loops with early exit run the schedule: score, contributions and verdict of the specification, panics included |
| PipelineVerdicts.PassesIff | crates/waf-pipeline/src/lib.rs:177-312 | a blocking run passes exactly when no module blocks, rejects, or panics where that fails closed, and its score never reaches the threshold |
| PipelineVerdicts.FirstDenialAnswers | crates/waf-pipeline/src/lib.rs:268-303 | the first module to end a run without a score gives its own rule and reason, status and advice, or its name when it panicked; nothing else ends it, nor anything in detection-only |
| PipelineVerdicts.ScoreAnswers | crates/waf-pipeline/src/lib.rs:241-247 | a single score is added in 32 bits, recorded, and ends a blocking run at the threshold |
| PipelineVerdicts.ScoresAnswer | crates/waf-pipeline/src/lib.rs:249-266 | so are the items of a list, each with the points of its severity, naming the last rule |
| PipelineVerdicts.ScoreIsWeighed | crates/waf-pipeline/src/lib.rs:79-104 | detection-only, the score is the points of single decisions and each severity's points as often as it is named, modulo 2^32 |
| PipelineOrder.ScheduleIsStable | crates/waf-pipeline/src/lib.rs:177-200 | a run is all modules that may run, each once, by phase and within a phase as registered |
| Pipeline.ScoreReachedIsTrue | crates/waf-pipeline/src/lib.rs:316-338 | a denial by score names the score the run ended at, at or above the threshold, and the last rule recorded; a blocking run that passes never stood there |
| Pipeline.Executor.RunInspectionGated | crates/waf-pipeline/src/lib.rs:156-167 | without inspection only structural modules run |
| Pipeline.RunIsConnectionThenInspection | crates/waf-pipeline/src/lib.rs:122-145 | the whole run is the connection phase and then, unless it denies, the inspection phases on the same context |
| Pipeline.ScoreIsSum | crates/waf-pipeline/src/lib.rs:79-104 | recorded contributions are a prefix of what the modules would contribute, all of it if nothing stops the run, and the score moved by their points modulo 2^32 |
| Pipeline.DetectionOnlyRecordsAll | crates/waf-pipeline/src/lib.rs:115-117 | detection-only always allows and records everything; a blocking run records a prefix of that |
| Pipeline.DeniesIffPeakReached | crates/waf-corpus/tests/validation.rs:199-215 | overflow or not, a blocking run denies exactly when the run at the largest threshold denies or ever stands at the threshold or above |
| Pipeline.ReplayIsRightIff | crates/waf-corpus/tests/validation.rs:199-215 | replay by the final score is right exactly when that run denies or its peak and its final score lie on one side of the threshold |
| Pipeline.DeniesIffScoreReached | crates/waf-corpus/tests/validation.rs:199-215 | which is always so when the counter does not overflow |
| Pipeline.OverflowHidesScore | crates/waf-pipeline/src/lib.rs:87 | two modules for which it is not |
| Pipeline.SkippingSilentContent | crates/waf-pipeline/src/lib.rs:147-167 | running only structural modules equals the full run when every other module neither scores nor denies |
| Content.AllMatches | crates/waf-detection/src/lib.rs:54-69 | the flag array yields the matching rules in order |
| Content.HitsAreMatches | crates/waf-detection/src/lib.rs:51-69 | each matching rule is reported exactly once, in order, and no other |
| Content.BodyStrValues | crates/waf-detection/src/lib.rs:220-265 | the inspectable texts of a body, part names and filenames included, binary data not |
| Content.TableModule.Inspect | crates/waf-detection/src/sqli.rs:150-190 | an item for every active rule that matches a scanned value, and Allow when there is none |
| ContentVerdicts.TableReports | crates/waf-detection/src/sqli.rs:150-190 | a table reports an item for exactly the rules switched on whose pattern is met in the places of its surface, in order |
| ContentVerdicts.EverythingAllowsIff | crates/waf-detection/src/sqli.rs:150-190 | it allows exactly when none matches the path, a query or cookie value, a text of the body, a derived text or an inspectable header |
| ContentVerdicts.FieldsAllowIff | crates/waf-detection/src/lfi_rfi.rs:99-130 | the same for a table over the fields alone |
| ContentVerdicts.UserAgentAllowsIff | crates/waf-detection/src/scanner.rs:82-110 | and for one over user agents |
| ContentVerdicts.InspectableIff | crates/waf-normalizer/src/lib.rs:267-286 | a header is inspected exactly when it is the referrer or an extension header and its name does not end in `-token` |
| Content.HeaderInjectionModule.Inspect | crates/waf-detection/src/header_injection.rs:144-196 | each rule is matched in its own scope |
| ContentVerdicts.HeadersReport | crates/waf-detection/src/header_injection.rs:144-196 | an item for exactly the rules switched on whose pattern is met in the places of their scope, in order |
| Prefilter.ContentRulesSplit | crates/waf-detection/src/lib.rs:90-122 | the loops fill the two buckets with every active rule, host-only ones apart |
| Prefilter.IsCandidate | crates/waf-detection/src/lib.rs:176-202 | true exactly when a bucket matches a text of its surface |
| PrefilterVerdicts.CandidateIff | crates/waf-detection/src/lib.rs:176-202 | a request is a candidate exactly when some rule switched on matches a place of the main surface, or a rule for hosts a host header |
| Prefilter.TableAllows | crates/waf-detection/src/lib.rs:126-133 | a table module allows every request that is no candidate |
| Prefilter.HeadersAllow | crates/waf-detection/src/header_injection.rs:91-196 | so does header injection, each scope against its own bucket |
| Prefilter.FastPathIsSound | crates/waf-pipeline/src/lib.rs:156-167 | on a request that is no candidate the gated run equals full inspection in verdict, score and contributions |
| CrsLexer.TokenizeLogical | crates/waf-detection/src/crs/lexer.rs:67-134 | the index loops cut a logical line into the tokens of the specification, and drop blank and comment lines |
| CrsQuoting.QuotedLineIsTokenIff | crates/waf-detection/src/crs/lexer.rs:91-118 | a text without quotes stands between them as it is exactly when each backslash has another character behind it |
| CrsWriting.WrittenIsDirectiveIff | crates/waf-detection/src/crs/lexer.rs:67-134 | any line of bare and quoted words with blanks around them is cut into those words, and is no directive exactly when it has none or starts with `#` |
| CrsLexer.Lex | crates/waf-detection/src/crs/lexer.rs:31-64 | the line loop joins continuations and numbers directives as specified |
| CrsLexer.DirectivesHaveTokens | crates/waf-detection/src/crs/lexer.rs:129-133 | every directive has its keyword |
| CrsLexerRoundTrip.PrintedComesBackIff | crates/waf-detection/src/crs/lexer.rs:31-134 | printing token lists and lexing gives the same lists on the same lines if and only if none is empty and no token holds a newline |
| CrsLexerRoundTrip.BreakingKeepsTokensIff | crates/waf-detection/src/crs/lexer.rs:41-49 | breaking a line with a backslash changes no token, whatever surrounds it, if and only if the rest is not blank or the front does not itself continue |
| CrsLexerRoundTrip.BreakingTextKeepsTokensIff | crates/waf-detection/src/crs/lexer.rs:31-64 | a backslash and a newline put into a line of a text change no token, whatever the lines around it, if and only if the rest is not blank or the front does not itself continue, and they do not come between a carriage return and the end of its line |
| CrsLexerRoundTrip.BlankRestMatters | crates/waf-detection/src/crs/lexer.rs:45-49 | lines for which it fails without that condition |
| CrsParse.Parse | crates/waf-detection/src/crs/parse.rs:26-67 | the directive loop computes the grouped and filtered rule set |
| CrsParse.Assemble | crates/waf-detection/src/crs/parse.rs:138-214 | one group becomes one rule or one skip with its reason and line |
| CrsLoading.KeptIff | crates/waf-detection/src/crs/parse.rs:138-214 | a group becomes a rule exactly when its head is whole, has an id and runs in the first two phases, and every directive of it is supported |
| CrsLoading.KeptRuleSays | crates/waf-detection/src/crs/parse.rs:204-213 | its severity is its own, the default one or a warning, its message its own |
| CrsLoading.DroppedSays | crates/waf-detection/src/crs/parse.rs:138-202 | a group that is dropped is reported with the line of the fault found first |
| CrsLoading.DefaultsAre | crates/waf-detection/src/crs/parse.rs:79-92 | defaults in force are those of the last directive that names them |
| CrsParse.ResolveTransforms | crates/waf-detection/src/crs/parse.rs:248-258 | the clearing loop computes what follows the last reset |
| CrsParse.CollectRemovedIds | crates/waf-detection/src/crs/parse.rs:487-500 | exactly the ids named singly or by an interval |
| CrsLoading.NumbersNameRules | crates/waf-detection/src/crs/parse.rs:487-500 | `n` names rule n alone and `a-b` the rules from a to b |
| CrsGroups.GroupsPartitionRules | crates/waf-detection/src/crs/parse.rs:35-53 | the groups are all rule directives, in order, each group a head with the rules chained to it |
| CrsGroups.OneOutcomePerGroup | crates/waf-detection/src/crs/parse.rs:138-214 | every group yields exactly one rule or one skip |
| CrsGroups.KeptRuleIsItsGroup | crates/waf-detection/src/crs/parse.rs:172-213 | a kept rule has one unit per directive, in order, defaults only on its head, and nothing unsupported |
| CrsGroups.TransformsAreAfterLastNone | crates/waf-detection/src/crs/parse.rs:245-258 | a link's list is what follows its last `t:none`, or defaults and its own list when there is none |
| CrsGroups.RemovalOnlyFiltersIff | crates/waf-detection/src/crs/parse.rs:56-65 | whatever surrounds it, a removal directive changes nothing before the final filter if and only if it does not stand in an open chain |
| CrsGroups.RemovalCutsOpenChain | crates/waf-detection/src/crs/parse.rs:40-51 | in one it cuts the group of the chain in two and leaves all others, so there is one group more |
| CrsGroups.ParsedRulesSurvive | crates/waf-detection/src/crs/parse.rs:63-65 | the rules kept are exactly those that no directive removes by id |
| CrsGroups.SourceIsAccountedFor | crates/waf-detection/src/crs/ast.rs:120-127 | rules loaded, skipped and removed add up to the groups in the text |
| CrsEngine.EvalCompiled | crates/waf-detection/src/crs/module.rs:209-222 | a rule fires exactly when every link matches |
| CrsVerdicts.NegationFlips | crates/waf-detection/src/crs/module.rs:213-216 | of a rule of one link and the same rule negated exactly one fires |
| CrsVerdicts.ChainIsConjunction | crates/waf-detection/src/crs/module.rs:209-222 | a chain fires exactly when its first link and the rest of it both would |
| CrsEngine.FromParsed | crates/waf-detection/src/crs/module.rs:78-156 | whichever pattern sets fail to build, the rules held are those that compile one by one, and the others are skipped |
| CrsEngine.CrsModule.Inspect | crates/waf-detection/src/crs/module.rs:243-277 | the bucket pass and the slow pass report the rules held that fire |
| CrsEngine.SetHits | crates/waf-detection/src/crs/module.rs:252-257 | the flag array marks exactly the patterns that match some value |
| CrsEngine.FastRuleCompiles | crates/waf-detection/src/crs/module.rs:183-198 | compiling a bucket rule is compiling its pattern |
| CrsEngine.NaiveOfPermutation | crates/waf-detection/src/crs/module.rs:243-277 | plain evaluation depends on which rules there are, not on their order |
| CrsEngine.Evaluate | crates/waf-detection/src/crs/module.rs:1-13 | a module built from a parsed rule set reports on any request, as a multiset, what evaluating every compilable rule alone reports, and allows exactly when none fires |
| CrsVerdicts.EvaluateRules | crates/waf-detection/src/crs/module.rs:243-277 | a module allows exactly when no rule holds, and otherwise reports those that do; operators are defined by the shape of a text |
| CrsVerdicts.EvaluateAlone | crates/waf-detection/src/crs/operator.rs:27-65 | one rule without a chain, operator by operator: silent exactly when its operator finds no value or, negated, some value; always when it cannot be loaded |
| CrsVerdicts.UnloadedIsSkipped | crates/waf-detection/src/crs/module.rs:109-121 | a rule that cannot be loaded is skipped with its id, its line and the reason of its first such link |
| CrsEngine.EveryRuleIsAccountedFor | crates/waf-detection/src/crs/module.rs:78-156 | every parsed rule is loaded or skipped |

## Left out

- The hyper and tokio proxy, TLS, configuration loading and reload, logging and metrics: I/O around the modelled core.
- wasmi execution, fuel and linear memory: the guest call is a step that returns or panics.
- The concrete rule patterns and the regular-expression engine; patterns and matching are parameters.
- The CRS transforms and target extraction, which both evaluators share as one parameter.
- Parsing inside one seclang token after the keyword (variable lists, operators, action lists): parameters of `CrsParse.Grammar`.
- The order in which the evaluator walks its bucket map: `CrsEngine` walks it in order of insertion, and its theorems are about multisets. The map's text key is modelled as the pair of lists it prints.
- Texts of skip reasons and log lines; reasons are constructors carrying the same data.
- Floating-point rounding and the granularity of durations in the store and the limiter.
- A negative bucket capacity, with which the sweep cannot compute a duration.
- EvictionIsUnobservable: for fixed parameters only; a store reparameterized between a sweep and the next access is covered by EvictionShowsIff alone.
- DeniesIffScoreReached: for runs without overflow; what holds with it is DeniesIffPeakReached and ReplayIsRightIff.
- TreesPassIffWithinLimits: with the largest 32-bit field cap, for trees of no more fields than that, since the counter saturates there.
- FastPathIsSound: for the built-in content modules; content modules added by an embedder are outside the prefilter's knowledge.
- PayloadIsSeenIff: for payloads that are mostly printable and have nothing decodable of their own, under layers that normalization leaves as they stand; LayersAreOpened is about any chain of expansions.
- GraphqlModule: which texts of a request are its operations; the module is modelled on the list of them.
- RefusedOnlyIfUsed: for readings in order, since a stale reading also refuses a call whose bucket would have refilled by the true time.
- MalformedIff: where the field cap ends the reading of a message, whether the bytes after it are well-formed is not recorded, and PlainPassesIff says that the body is rejected all the same.
- QueryComesBackIff: for names and values that decode to canonical text, since normalization can also turn other text into the one sent.
- GraphQL type-system documents, and the spelling of keywords: heads of definitions are any names, and only executable definitions have trees.
- UploadsComeBackIff: names and filenames free of quotes, semicolons and carriage returns, and boundaries free of carriage returns, since the parser has no escapes for them.
- Fairness of the pool: that a parked thread is eventually scheduled is not stated.
- Capacity preallocation in the decoders, and allocation failure.
- Form bodies, JSON flattening, cookies, the request-smuggling checks, the client-IP resolver and the ABI tables: mostly single branches over foreign parsers.
- Evasion transforms derived from HTML entities, tags and script concatenation: a parameter of `Query`.
