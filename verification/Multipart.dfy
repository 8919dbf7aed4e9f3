/** Multipart form bodies (section 5.1.1 of RFC 2046, section 4.2 of RFC 7578): the parser as
    loops over positions in the body, specified by functions on what is left to read. */
module Multipart {
  import opened Bits
  import opened Seqs
  import Utf8

  const CR: byte := 0x0D
  const LF: byte := 0x0A
  const SPACE: byte := 0x20
  const QUOTE: byte := 0x22
  const DASH: byte := 0x2D
  const COLON: byte := 0x3A
  const SEMI: byte := 0x3B
  const EQUALS: byte := 0x3D

  const CRLF := [CR, LF]
  const DASHES := [DASH, DASH]

  function Ascii(s: string): (b: seq<byte>)
    requires forall i :: 0 <= i < |s| ==> s[i] < 128 as char
    ensures |b| == |s|
  {
    seq(|s|, i requires 0 <= i < |s| => s[i] as int)
  }

  function InterBoundary(boundary: seq<byte>): seq<byte> { CRLF + (DASHES + boundary) }

  // ---- searching ----

  /** First position of `needle`; an empty needle is never found. */
  function Find(s: seq<byte>, needle: seq<byte>): (r: Option<nat>)
    ensures r.Some? ==> needle != [] && r.value + |needle| <= |s|
    decreases |s|
  {
    if needle == [] || |s| < |needle| then None
    else if s[..|needle|] == needle then Some(0)
    else Shifted(1, Find(s[1..], needle))
  }

  lemma TailHas(s: seq<byte>, needle: seq<byte>, k: nat)
    requires 1 <= k && s != []
    ensures HasAt(s, needle, k) == HasAt(s[1..], needle, k - 1)
  {
    if k <= |s| - |needle| { assert s[1..][k - 1..k - 1 + |needle|] == s[k..k + |needle|]; }
  }

  lemma {:induction false} FindIsFirst(s: seq<byte>, needle: seq<byte>)
    requires needle != []
    ensures var r := Find(s, needle); if r.Some? then FirstAt(s, needle, 0, r.value) else !Contains(s, needle)
    decreases |s|
  {
    if |s| >= |needle| {
      assert s[0..|needle|] == s[..|needle|];
      if s[..|needle|] != needle {
        FindIsFirst(s[1..], needle);
        forall k: nat | 1 <= k
          ensures HasAt(s, needle, k) == HasAt(s[1..], needle, k - 1)
        {
          TailHas(s, needle, k);
        }
      }
    }
  }

  function Shifted(from: nat, r: Option<nat>): Option<nat>
  {
    match r case None => None case Some(k) => Some(from + k)
  }

  lemma FindStep(s: seq<byte>, needle: seq<byte>, i: nat)
    requires i < |s| && needle != []
    ensures Find(s[i..], needle) ==
      if i + |needle| > |s| then None
      else if s[i..i + |needle|] == needle then Some(0)
      else Shifted(1, Find(s[i + 1..], needle))
  {
    assert s[i..][1..] == s[i + 1..];
    if i + |needle| <= |s| { assert s[i..][..|needle|] == s[i..i + |needle|]; }
  }

  lemma SearchStep(s: seq<byte>, needle: seq<byte>, i: nat)
    requires i < |s| && needle != []
    ensures Shifted(i, Find(s[i..], needle)) ==
      if i + |needle| > |s| then None
      else if s[i..i + |needle|] == needle then Some(i)
      else Shifted(i + 1, Find(s[i + 1..], needle))
  {
    FindStep(s, needle, i);
    ShiftedTwice(i, Find(s[i + 1..], needle));
  }

  lemma ShiftedTwice(i: nat, r: Option<nat>)
    ensures Shifted(i, Shifted(1, r)) == Shifted(i + 1, r)
  {
  }

  method FindBytes(haystack: seq<byte>, needle: seq<byte>, from: nat) returns (r: Option<nat>)
    requires from <= |haystack|
    ensures r == Shifted(from, Find(haystack[from..], needle))
  {
    r := None;
    if needle == [] || |haystack| < |needle| { return; }
    ghost var found := Shifted(from, Find(haystack[from..], needle));
    var i := from;
    while i < |haystack| - |needle| + 1
      invariant from <= i <= |haystack|
      invariant found == Shifted(i, Find(haystack[i..], needle))
    {
      SearchStep(haystack, needle, i);
      if haystack[i..i + |needle|] == needle { return Some(i); }
      i := i + 1;
    }
  }

  lemma TwoBytes(s: seq<byte>, i: nat, needle: seq<byte>)
    requires i + 1 < |s| && |needle| == 2
    ensures s[i..i + 2] == needle <==> s[i] == needle[0] && s[i + 1] == needle[1]
  {
    assert s[i..i + 2] == [s[i], s[i + 1]];
  }

  method FindCrlf(data: seq<byte>, from: nat) returns (r: Option<nat>)
    requires from <= |data|
    ensures r == Shifted(from, Find(data[from..], CRLF))
  {
    r := None;
    ghost var needle := CRLF;
    ghost var found := Shifted(from, Find(data[from..], needle));
    var i := from;
    while i + 1 < |data|
      invariant from <= i <= |data|
      invariant found == Shifted(i, Find(data[i..], needle))
    {
      SearchStep(data, needle, i);
      TwoBytes(data, i, needle);
      if data[i] == CR && data[i + 1] == LF { return Some(i); }
      i := i + 1;
    }
  }

  lemma FindIs(s: seq<byte>, needle: seq<byte>, at: nat)
    requires needle != [] && FirstAt(s, needle, 0, at)
    ensures Find(s, needle) == Some(at)
  {
    FindIsFirst(s, needle);
    assert Contains(s, needle);
  }

  lemma HeadsOf(s: seq<byte>, needle: seq<byte>)
    requires needle != []
    ensures forall k :: HasAt(s, needle, k) ==> s[k] == needle[0]
  {
    forall k | HasAt(s, needle, k)
      ensures s[k] == needle[0]
    {
      assert s[k..k + |needle|][0] == s[k];
    }
  }

  /** A needle is found right after a piece that does not hold the needle's first byte. */
  lemma FindAfterPiece(piece: seq<byte>, needle: seq<byte>, rest: seq<byte>)
    requires needle != [] && needle[0] !in piece
    ensures Find(piece + needle + rest, needle) == Some(|piece|)
  {
    var s := piece + needle + rest;
    assert s[|piece|..|piece| + |needle|] == needle;
    HeadsOf(s, needle);
    assert forall k :: 0 <= k < |piece| ==> s[k] == piece[k];
    FindIs(s, needle, |piece|);
  }

  // ---- text helpers ----

  function Lower(s: seq<byte>): (r: seq<byte>)
    ensures |r| == |s|
  {
    seq(|s|, i requires 0 <= i < |s| => if 0x41 <= s[i] <= 0x5A then s[i] + 0x20 else s[i])
  }

  predicate White(b: byte) { 0x09 <= b <= 0x0D || b == SPACE }

  predicate WideWhite(a: byte, b: byte, c: byte)
  {
    || (a == 0xE1 && b == 0x9A && c == 0x80)
    || (a == 0xE2 && b == 0x80 && (0x80 <= c <= 0x8A || c == 0xA8 || c == 0xA9 || c == 0xAF))
    || (a == 0xE2 && b == 0x81 && c == 0x9F)
    || (a == 0xE3 && b == 0x80 && c == 0x80)
  }

  /** Bytes of the White_Space character at the head of a UTF-8 text; 0 when there is none. */
  function WhiteHead(s: seq<byte>): (n: nat)
    ensures n <= |s|
  {
    if |s| >= 1 && White(s[0]) then 1
    else if |s| >= 2 && s[0] == 0xC2 && (s[1] == 0x85 || s[1] == 0xA0) then 2
    else if |s| >= 3 && WideWhite(s[0], s[1], s[2]) then 3
    else 0
  }

  function WhiteTail(s: seq<byte>): (n: nat)
    ensures n <= |s|
  {
    var e := |s|;
    if e >= 1 && White(s[e - 1]) then 1
    else if e >= 2 && s[e - 2] == 0xC2 && (s[e - 1] == 0x85 || s[e - 1] == 0xA0) then 2
    else if e >= 3 && WideWhite(s[e - 3], s[e - 2], s[e - 1]) then 3
    else 0
  }

  function TrimStart(s: seq<byte>): seq<byte>
    decreases |s|
  {
    var n := WhiteHead(s);
    if n == 0 then s else TrimStart(s[n..])
  }

  function TrimEnd(s: seq<byte>): seq<byte>
    decreases |s|
  {
    var n := WhiteTail(s);
    if n == 0 then s else TrimEnd(s[..|s| - n])
  }

  /** `str::trim` */
  function Trim(s: seq<byte>): seq<byte> { TrimEnd(TrimStart(s)) }

  function StripQuotes(s: seq<byte>): seq<byte>
    decreases |s|
  {
    if s != [] && s[0] == QUOTE then StripQuotes(s[1..]) else s
  }

  function StripQuotesEnd(s: seq<byte>): seq<byte>
    decreases |s|
  {
    if s != [] && s[|s| - 1] == QUOTE then StripQuotesEnd(s[..|s| - 1]) else s
  }

  /** `trim_matches('"')` */
  function Unquote(s: seq<byte>): seq<byte> { StripQuotesEnd(StripQuotes(s)) }

  // ---- the header block of a part ----

  type Header = (seq<byte>, seq<byte>)

  datatype Line = Bad | Skipped | Good(header: Header)

  function HeaderOf(line: seq<byte>): Line
  {
    match IndexOf(line, COLON)
    case None => Skipped
    case Some(colon) =>
      if Utf8.Valid(line[..colon]) && Utf8.Valid(line[colon + 1..]) then
        Good((Trim(line[..colon]), Trim(line[colon + 1..])))
      else Bad
  }

  /** What one line of the block amounts to: a reason to give up, its end, or some headers. */
  datatype Step = GiveUp | Done(rest: seq<byte>) | More(headers: seq<Header>, rest: seq<byte>)

  function TakeLine(b: seq<byte>): (r: Step)
    ensures !r.GiveUp? ==> |r.rest| < |b|
  {
    match Find(b, CRLF)
    case None => GiveUp
    case Some(end) => EndedLine(b[..end], b[end + 2..])
  }

  /** A line that has been found, with what follows its line break. */
  function EndedLine(line: seq<byte>, rest: seq<byte>): Step
  {
    if line == [] then Done(rest)
    else if HeaderOf(line).Bad? then GiveUp
    else More(LineHeaders(HeaderOf(line)), rest)
  }

  function LineHeaders(l: Line): seq<Header> { if l.Good? then [l.header] else [] }

  type Block = Front<Header, byte>

  function Headers(b: seq<byte>): (r: Option<Block>)
    ensures r.Some? ==> |r.value.rest| < |b|
    decreases |b|
  {
    match TakeLine(b)
    case GiveUp => None
    case Done(rest) => Some(Front([], rest))
    case More(headers, rest) => AheadIfAny(headers, Headers(rest))
  }

  method ParsePartHeaders(data: seq<byte>, start: nat) returns (r: Option<seq<Header>>, pos: nat)
    requires start <= |data|
    ensures match Headers(data[start..])
            case None => r == None
            case Some(b) => r == Some(b.read) && start < pos <= |data| && data[pos..] == b.rest
  {
    var headers: seq<Header> := [];
    pos := start;
    r := None;
    NothingAhead(Headers(data[start..]));
    var more := true;
    while more
      invariant start <= pos <= |data|
      invariant more ==> Headers(data[start..]) == AheadIfAny(headers, Headers(data[pos..]))
      invariant !more ==> pos > start && Headers(data[start..]) == Some(Front(headers, data[pos..]))
      decreases |data| - pos
    {
      var step, next := ReadLine(data, pos);
      if step.GiveUp? { return; }
      if step.Done? {
        assert headers + [] == headers;
        more := false;
      } else {
        AheadIfAnyTwice(headers, step.headers, Headers(data[next..]));
        headers := headers + step.headers;
      }
      pos := next;
    }
    r := Some(headers);
  }

  method ReadLine(data: seq<byte>, pos: nat) returns (step: Step, next: nat)
    requires pos <= |data|
    ensures step == TakeLine(data[pos..])
    ensures !step.GiveUp? ==> pos < next <= |data| && data[next..] == step.rest
  {
    step, next := GiveUp, pos;
    var lineEnd := FindCrlf(data, pos);
    if lineEnd == None { return; }
    FoundEnd(data, pos, lineEnd.value);
    LineSlices(data, pos, lineEnd.value);
    next := lineEnd.value + 2;
    step := TakeEnded(data[pos..lineEnd.value], data[next..]);
  }

  lemma FoundEnd(data: seq<byte>, pos: nat, end: nat)
    requires pos <= |data| && Shifted(pos, Find(data[pos..], CRLF)) == Some(end)
    ensures pos <= end && end + 2 <= |data| && Find(data[pos..], CRLF) == Some(end - pos)
  {
  }

  method TakeEnded(line: seq<byte>, rest: seq<byte>) returns (step: Step)
    ensures step == EndedLine(line, rest)
  {
    if line == [] { return Done(rest); }
    var header := ParseLine(line);
    if header.Bad? { return GiveUp; }
    return More(LineHeaders(header), rest);
  }

  lemma LineSlices(data: seq<byte>, pos: nat, end: nat)
    requires pos <= end && end + 2 <= |data|
    ensures data[pos..][..end - pos] == data[pos..end] && data[pos..][end - pos + 2..] == data[end + 2..]
  {
  }

  method ParseLine(line: seq<byte>) returns (r: Line)
    ensures r == HeaderOf(line)
  {
    var colon := IndexOf(line, COLON);
    if colon == None { return Skipped; }
    var name, value := line[..colon.value], line[colon.value + 1..];
    if !Utf8.Valid(name) || !Utf8.Valid(value) { return Bad; }
    return Good((Trim(name), Trim(value)));
  }

  // ---- what the headers say ----

  datatype Part = Part(name: seq<byte>, filename: Option<seq<byte>>, contentType: Option<seq<byte>>, data: seq<byte>)

  function ReadParam(raw: seq<byte>, p: Part): Part
  {
    var param := Trim(raw);
    match IndexOf(param, EQUALS)
    case None => p
    case Some(eq) =>
      var key, value := Lower(Trim(param[..eq])), Unquote(Trim(param[eq + 1..]));
      if key == Ascii("name") then p.(name := value)
      else if key == Ascii("filename") then p.(filename := Some(value))
      else p
  }

  function ReadParams(params: seq<seq<byte>>, p: Part): Part
    decreases |params|
  {
    if params == [] then p else ReadParams(params[1..], ReadParam(params[0], p))
  }

  function ReadHeader(h: Header, p: Part): Part
  {
    if Lower(h.0) == Ascii("content-disposition") then ReadParams(Split(h.1, SEMI), p)
    else if Lower(h.0) == Ascii("content-type") then p.(contentType := Some(h.1))
    else p
  }

  function ReadHeaders(headers: seq<Header>, p: Part): Part
    decreases |headers|
  {
    if headers == [] then p else ReadHeaders(headers[1..], ReadHeader(headers[0], p))
  }

  function Unnamed(data: seq<byte>): Part { Part([], None, None, data) }

  method Describe(headers: seq<Header>, data: seq<byte>) returns (p: Part)
    ensures p == ReadHeaders(headers, Unnamed(data))
  {
    p := Unnamed(data);
    for i := 0 to |headers|
      invariant ReadHeaders(headers[i..], p) == ReadHeaders(headers, Unnamed(data))
    {
      assert headers[i..][1..] == headers[i + 1..];
      p := TakeHeader(headers[i], p);
    }
  }

  method TakeHeader(h: Header, p: Part) returns (p': Part)
    ensures p' == ReadHeader(h, p)
  {
    p' := p;
    if Lower(h.0) == Ascii("content-disposition") {
      var params := Split(h.1, SEMI);
      for i := 0 to |params|
        invariant ReadParams(params[i..], p') == ReadParams(params, p)
      {
        assert params[i..][1..] == params[i + 1..];
        p' := ReadParam(params[i], p');
      }
    } else if Lower(h.0) == Ascii("content-type") {
      p' := p.(contentType := Some(h.1));
    }
  }

  // ---- the parts ----

  datatype Taken = End | Took(part: Part, rest: seq<byte>)

  /** The part that starts right after a boundary. */
  function TakePart(b: seq<byte>, boundary: seq<byte>): (r: Taken)
    ensures r.Took? ==> |r.rest| < |b|
  {
    if DASHES <= b || !(CRLF <= b) then End
    else match Headers(b[2..])
      case None => End
      case Some(Front(headers, rest)) => TakeContent(headers, rest, InterBoundary(boundary))
  }

  /** The content of a part, up to the next boundary line. */
  function TakeContent(headers: seq<Header>, b: seq<byte>, inter: seq<byte>): (r: Taken)
    ensures r.Took? ==> |r.rest| <= |b|
  {
    match Find(b, inter)
    case None => End
    case Some(end) => Took(ReadHeaders(headers, Unnamed(b[..end])), b[end + |inter|..])
  }

  /** Parts without a name are dropped. */
  function Kept(p: Part): seq<Part> { if p.name == [] then [] else [p] }

  function Parts(b: seq<byte>, boundary: seq<byte>): seq<Part>
    decreases |b|
  {
    match TakePart(b, boundary)
    case End => []
    case Took(part, rest) => Kept(part) + Parts(rest, boundary)
  }

  /** What follows the first occurrence of `needle`. */
  function After(s: seq<byte>, needle: seq<byte>): Option<seq<byte>>
  {
    match Find(s, needle) case None => None case Some(p) => Some(s[p + |needle|..])
  }

  function Parse(body: seq<byte>, boundary: seq<byte>): seq<Part>
  {
    match After(body, DASHES + boundary) case None => [] case Some(rest) => Parts(rest, boundary)
  }

  method ParseMultipart(data: seq<byte>, boundary: seq<byte>) returns (fields: seq<Part>)
    ensures fields == Parse(data, boundary)
  {
    var pos := FindOpening(data, DASHES + boundary);
    if pos == None { return []; }
    fields := ParseParts(data, pos.value, boundary);
  }

  method FindOpening(data: seq<byte>, delimiter: seq<byte>) returns (pos: Option<nat>)
    ensures match After(data, delimiter)
            case None => pos == None
            case Some(rest) => pos.Some? && pos.value <= |data| && data[pos.value..] == rest
  {
    pos := FindBytes(data, delimiter, 0);
    assert data[0..] == data;
    if pos.Some? { pos := Some(pos.value + |delimiter|); }
  }

  method ParseParts(data: seq<byte>, start: nat, boundary: seq<byte>) returns (fields: seq<Part>)
    requires start <= |data|
    ensures fields == Parts(data[start..], boundary)
  {
    fields := [];
    var pos, more := start, true;
    ghost var all := Parts(data[start..], boundary);
    while more
      invariant 0 <= pos <= |data|
      invariant all == fields + if more then Parts(data[pos..], boundary) else []
      decreases more, |data| - pos
    {
      fields, pos, more := Advance(data, pos, boundary, fields);
    }
    assert fields + [] == fields;
  }

  method Advance(data: seq<byte>, pos: nat, boundary: seq<byte>, fields: seq<Part>)
    returns (fields': seq<Part>, next: nat, more: bool)
    requires pos <= |data|
    ensures pos <= next <= |data| && (more ==> pos < next)
    ensures fields + Parts(data[pos..], boundary) == fields' + if more then Parts(data[next..], boundary) else []
  {
    fields', more := fields, false;
    var part, n := NextPart(data, pos, boundary);
    next := pos;
    if part.Some? {
      assert Parts(data[pos..], boundary) == Kept(part.value) + Parts(data[n..], boundary);
      Assoc(fields, Kept(part.value), Parts(data[n..], boundary));
      if part.value.name != [] { fields' := fields + [part.value]; } else { assert fields + [] == fields; }
      next, more := n, true;
    }
  }

  /** One turn of the loop: the part after the boundary at `pos`, and where the next one starts. */
  method NextPart(data: seq<byte>, pos: nat, boundary: seq<byte>) returns (part: Option<Part>, next: nat)
    requires pos <= |data|
    ensures match TakePart(data[pos..], boundary)
            case End => part == None
            case Took(p, rest) => part == Some(p) && pos < next <= |data| && data[next..] == rest
  {
    next := pos;
    PrefixOfTwo(data, pos, DASH, DASH);
    PrefixOfTwo(data, pos, CR, LF);
    if pos + 1 < |data| && data[pos] == DASH && data[pos + 1] == DASH { return None, next; }
    if !(pos + 1 < |data| && data[pos] == CR && data[pos + 1] == LF) { return None, next; }
    assert data[pos..][2..] == data[pos + 2..];
    var headers, bodyStart := ParsePartHeaders(data, pos + 2);
    if headers == None { return None, next; }
    part, next := ReadContent(data, bodyStart, headers.value, CRLF + (DASHES + boundary));
  }

  method ReadContent(data: seq<byte>, bodyStart: nat, headers: seq<Header>, inter: seq<byte>)
    returns (part: Option<Part>, next: nat)
    requires bodyStart <= |data|
    ensures match TakeContent(headers, data[bodyStart..], inter)
            case End => part == None
            case Took(p, rest) => part == Some(p) && bodyStart <= next <= |data| && data[next..] == rest
  {
    part, next := None, bodyStart;
    var bodyEnd := FindBytes(data, inter, bodyStart);
    if bodyEnd == None { return; }
    ghost var rest := data[bodyStart..];
    assert rest[..bodyEnd.value - bodyStart] == data[bodyStart..bodyEnd.value];
    assert rest[bodyEnd.value - bodyStart + |inter|..] == data[bodyEnd.value + |inter|..];
    var p := Describe(headers, data[bodyStart..bodyEnd.value]);
    part, next := Some(p), bodyEnd.value + |inter|;
  }

  lemma PrefixOfTwo(data: seq<byte>, pos: nat, a: byte, b: byte)
    requires pos <= |data|
    ensures [a, b] <= data[pos..] <==> pos + 1 < |data| && data[pos] == a && data[pos + 1] == b
  {
  }

  // ---- any body at all ----

  ghost predicate Sound(p: Part, boundary: seq<byte>)
  {
    p.name != [] && !Contains(p.data, InterBoundary(boundary))
  }

  lemma {:induction false} HeadersKeepData(headers: seq<Header>, p: Part)
    ensures ReadHeaders(headers, p).data == p.data
    decreases |headers|
  {
    if headers != [] {
      if Lower(headers[0].0) == Ascii("content-disposition") { ParamsKeepData(Split(headers[0].1, SEMI), p); }
      HeadersKeepData(headers[1..], ReadHeader(headers[0], p));
    }
  }

  lemma {:induction false} ParamsKeepData(params: seq<seq<byte>>, p: Part)
    ensures ReadParams(params, p).data == p.data
    decreases |params|
  {
    if params != [] { ParamsKeepData(params[1..], ReadParam(params[0], p)); }
  }

  lemma PrefixHas(s: seq<byte>, needle: seq<byte>, at: nat)
    requires at <= |s|
    ensures forall k :: HasAt(s[..at], needle, k) ==> HasAt(s, needle, k)
  {
    forall k | HasAt(s[..at], needle, k)
      ensures HasAt(s, needle, k)
    {
      assert s[..at][k..k + |needle|] == s[k..k + |needle|];
    }
  }

  lemma BeforeFirst(s: seq<byte>, needle: seq<byte>, at: nat)
    requires needle != [] && FirstAt(s, needle, 0, at)
    ensures !Contains(s[..at], needle)
  {
    PrefixHas(s, needle, at);
    assert forall k :: HasAt(s[..at], needle, k) ==> 0 <= k < at;
  }

  lemma TakenIsSound(b: seq<byte>, boundary: seq<byte>)
    requires TakePart(b, boundary).Took?
    ensures !Contains(TakePart(b, boundary).part.data, InterBoundary(boundary))
  {
    var block := Headers(b[2..]).value;
    var end := Find(block.rest, InterBoundary(boundary)).value;
    FindIsFirst(block.rest, InterBoundary(boundary));
    HeadersKeepData(block.read, Unnamed(block.rest[..end]));
    BeforeFirst(block.rest, InterBoundary(boundary), end);
  }

  /** Every part of any body has a name and data that holds no boundary line. */
  lemma {:induction false} PartsAreSound(b: seq<byte>, boundary: seq<byte>)
    ensures forall i :: 0 <= i < |Parts(b, boundary)| ==> Sound(Parts(b, boundary)[i], boundary)
    decreases |b|
  {
    if TakePart(b, boundary).Took? {
      TakenIsSound(b, boundary);
      PartsAreSound(TakePart(b, boundary).rest, boundary);
    }
  }

  lemma ParsedIsSound(body: seq<byte>, boundary: seq<byte>)
    ensures forall i :: 0 <= i < |Parse(body, boundary)| ==> Sound(Parse(body, boundary)[i], boundary)
  {
    var rest := After(body, DASHES + boundary);
    if rest.Some? { PartsAreSound(rest.value, boundary); }
  }
}
