/** The form-data layout that the corpus runner sends, and what parsing it gives back. */
module MultipartRoundTrip {
  import opened Bits
  import opened Seqs
  import opened Multipart
  import Utf8

  datatype Upload = Upload(name: seq<byte>, filename: Option<seq<byte>>, content: seq<byte>)

  /** The fixed words of the layout. The parser ignores the case of header names and keys, and
      takes any content type, so the layout is described for all such words. */
  datatype Words = Words(
    disposition: seq<byte>, formData: seq<byte>, nameKey: seq<byte>, filenameKey: seq<byte>,
    typeHeader: seq<byte>, contentType: seq<byte>)

  function CorpusWords(): Words
  {
    Words(Ascii("Content-Disposition"), Ascii("form-data"), Ascii("name"), Ascii("filename"),
          Ascii("Content-Type"), Ascii("application/octet-stream"))
  }

  /** Visible ASCII without the characters that structure a header. */
  predicate Token(s: seq<byte>)
  {
    s != [] && forall i :: 0 <= i < |s| ==> 0x20 < s[i] < 0x7F && s[i] !in [QUOTE, COLON, SEMI, EQUALS]
  }

  predicate Known(w: Words)
  {
    && Token(w.disposition) && Token(w.formData) && Token(w.nameKey) && Token(w.filenameKey)
    && Token(w.typeHeader) && Token(w.contentType)
    && Lower(w.disposition) == Ascii("content-disposition") && Lower(w.typeHeader) == Ascii("content-type")
    && Lower(w.nameKey) == Ascii("name") && Lower(w.filenameKey) == Ascii("filename")
  }

  // ---- the layout ----

  function Quoted(v: seq<byte>): seq<byte> { [QUOTE] + v + [QUOTE] }

  function Param(key: seq<byte>, v: seq<byte>): seq<byte> { [SPACE] + (key + [EQUALS] + Quoted(v)) }

  function FileParams(filename: Option<seq<byte>>, w: Words): seq<seq<byte>>
  {
    match filename case None => [] case Some(f) => [Param(w.filenameKey, f)]
  }

  function DispositionParams(u: Upload, w: Words): seq<seq<byte>>
  {
    [w.formData] + ([Param(w.nameKey, u.name)] + FileParams(u.filename, w))
  }

  function Disposition(u: Upload, w: Words): seq<byte> { Join(DispositionParams(u, w), SEMI) }

  function HeaderLine(name: seq<byte>, value: seq<byte>): seq<byte> { name + [COLON] + ([SPACE] + value) }

  function BlockText(u: Upload, w: Words, rest: seq<byte>): seq<byte>
  {
    HeaderLine(w.disposition, Disposition(u, w)) + CRLF
    + (HeaderLine(w.typeHeader, w.contentType) + CRLF + (CRLF + rest))
  }

  function Tail(us: seq<Upload>, boundary: seq<byte>, w: Words): seq<byte>
  {
    if us == [] then DASHES + CRLF
    else CRLF + BlockText(us[0], w, us[0].content + InterBoundary(boundary) + Tail(us[1..], boundary, w))
  }

  function Body(us: seq<Upload>, boundary: seq<byte>, w: Words): seq<byte> { DASHES + boundary + Tail(us, boundary, w) }

  /** A value that can stand between quotes in a disposition header. */
  predicate Attribute(v: seq<byte>) { QUOTE !in v && SEMI !in v && CR !in v && Utf8.Valid(v) }

  predicate Sendable(u: Upload)
  {
    u.name != [] && Attribute(u.name) && (u.filename.Some? ==> Attribute(u.filename.value))
  }

  function Received(u: Upload, w: Words): Part { Part(u.name, u.filename, Some(w.contentType), u.content) }

  // ---- trimming and quotes ----

  /** Text whose first and last bytes are visible ASCII. */
  predicate Solid(s: seq<byte>)
  {
    s != [] && 0x20 < s[0] < 0x80 && 0x20 < s[|s| - 1] < 0x80
  }

  lemma SolidIsTrimmed(s: seq<byte>)
    requires Solid(s)
    ensures Trim(s) == s && Trim([SPACE] + s) == s
  {
    assert WhiteHead(s) == 0 && WhiteTail(s) == 0;
    assert ([SPACE] + s)[1..] == s;
  }

  lemma UnquoteQuoted(v: seq<byte>)
    requires QUOTE !in v
    ensures Unquote(Quoted(v)) == v
  {
    var inner := v + [QUOTE];
    assert Quoted(v)[1..] == inner;
    if v == [] {
      assert inner == [QUOTE] && StripQuotes([QUOTE]) == [] by { assert [QUOTE][1..] == []; }
    } else {
      assert v[0] in v && v[|v| - 1] in v;
      assert inner[..|inner| - 1] == v;
      assert StripQuotes(inner) == inner && StripQuotesEnd(v) == v;
    }
  }

  // ---- one parameter ----

  lemma ParamIsRead(key: seq<byte>, v: seq<byte>, p: Part)
    requires Token(key) && QUOTE !in v
    ensures ReadParam(Param(key, v), p) ==
      if Lower(key) == Ascii("name") then p.(name := v)
      else if Lower(key) == Ascii("filename") then p.(filename := Some(v)) else p
  {
    var param := key + [EQUALS] + Quoted(v);
    SolidIsTrimmed(param);
    assert EQUALS !in key;
    IndexOfPiece(key, Quoted(v), EQUALS);
    assert param[..|key|] == key && param[|key| + 1..] == Quoted(v);
    SolidIsTrimmed(key);
    SolidIsTrimmed(Quoted(v));
    UnquoteQuoted(v);
  }

  lemma BareTokenIsSkipped(token: seq<byte>, p: Part)
    requires Token(token)
    ensures ReadParam(token, p) == p
  {
    SolidIsTrimmed(token);
    assert EQUALS !in token;
  }

  lemma ParamHoldsNo(key: seq<byte>, v: seq<byte>, x: byte)
    requires Token(key) && x !in v && (x == SEMI || x == CR)
    ensures x !in Param(key, v)
  {
  }

  lemma ReadParamsCons(param: seq<byte>, rest: seq<seq<byte>>, p: Part)
    ensures ReadParams([param] + rest, p) == ReadParams(rest, ReadParam(param, p))
  {
    assert ([param] + rest)[1..] == rest;
  }

  lemma NamesDiffer()
    ensures Ascii("filename") != Ascii("name") && Ascii("content-type") != Ascii("content-disposition")
  {
    assert |Ascii("filename")| != |Ascii("name")|;
    assert |Ascii("content-type")| != |Ascii("content-disposition")|;
  }

  lemma FilenameIsRead(filename: Option<seq<byte>>, w: Words, p: Part)
    requires Known(w) && (filename.Some? ==> QUOTE !in filename.value)
    ensures ReadParams(FileParams(filename, w), p) == if filename.Some? then p.(filename := filename) else p
  {
    if filename.Some? {
      NamesDiffer();
      ParamIsRead(w.filenameKey, filename.value, p);
      ReadParamsCons(Param(w.filenameKey, filename.value), [], p);
      assert FileParams(filename, w) == [Param(w.filenameKey, filename.value)] + [];
    }
  }

  lemma DispositionIsSplit(u: Upload, w: Words)
    requires Sendable(u) && Known(w)
    ensures Split(Disposition(u, w), SEMI) == DispositionParams(u, w)
  {
    ParamHoldsNo(w.nameKey, u.name, SEMI);
    if u.filename.Some? { ParamHoldsNo(w.filenameKey, u.filename.value, SEMI); }
    assert SEMI !in w.formData;
    SplitJoin(DispositionParams(u, w), SEMI);
  }

  lemma DispositionIsRead(u: Upload, w: Words, p: Part)
    requires Sendable(u) && Known(w) && p.filename == None
    ensures ReadParams(Split(Disposition(u, w), SEMI), p) == p.(name := u.name, filename := u.filename)
  {
    DispositionIsSplit(u, w);
    ReadParamsCons(w.formData, [Param(w.nameKey, u.name)] + FileParams(u.filename, w), p);
    BareTokenIsSkipped(w.formData, p);
    ReadParamsCons(Param(w.nameKey, u.name), FileParams(u.filename, w), p);
    ParamIsRead(w.nameKey, u.name, p);
    FilenameIsRead(u.filename, w, p.(name := u.name));
  }

  // ---- the header block ----

  predicate HeaderName(name: seq<byte>) { Solid(name) && COLON !in name && CR !in name && Utf8.Valid(name) }

  predicate HeaderValue(value: seq<byte>) { Solid(value) && CR !in value && Utf8.Valid(value) }

  lemma TokenIsText(s: seq<byte>)
    requires Token(s)
    ensures HeaderName(s) && HeaderValue(s)
  {
    Utf8.AsciiIsValid(s);
  }

  lemma LineIsTaken(name: seq<byte>, value: seq<byte>, rest: seq<byte>)
    requires HeaderName(name) && HeaderValue(value)
    ensures TakeLine(HeaderLine(name, value) + CRLF + rest) == More([(name, value)], rest)
  {
    var line := HeaderLine(name, value);
    var b := line + CRLF + rest;
    assert CR !in line;
    FindAfterPiece(line, CRLF, rest);
    assert b[..|line|] == line && b[|line| + 2..] == rest;
    LineIsGood(name, value);
  }

  lemma LineIsGood(name: seq<byte>, value: seq<byte>)
    requires HeaderName(name) && HeaderValue(value)
    ensures HeaderOf(HeaderLine(name, value)) == Good((name, value))
  {
    var line := HeaderLine(name, value);
    IndexOfPiece(name, [SPACE] + value, COLON);
    assert line[..|name|] == name && line[|name| + 1..] == [SPACE] + value;
    SpacedIsValid(value);
    SolidIsTrimmed(name);
    SolidIsTrimmed(value);
  }

  lemma SpacedIsValid(value: seq<byte>)
    requires Utf8.Valid(value)
    ensures Utf8.Valid([SPACE] + value)
  {
    Utf8.AsciiIsValid([SPACE]);
    Utf8.ValidConcat([SPACE], value);
  }

  lemma TwoLinesAreRead(n1: seq<byte>, v1: seq<byte>, n2: seq<byte>, v2: seq<byte>, rest: seq<byte>)
    requires HeaderName(n1) && HeaderValue(v1) && HeaderName(n2) && HeaderValue(v2)
    ensures Headers(HeaderLine(n1, v1) + CRLF + (HeaderLine(n2, v2) + CRLF + (CRLF + rest)))
      == Some(Front([(n1, v1), (n2, v2)], rest))
  {
    var end := CRLF + rest;
    var second := HeaderLine(n2, v2) + CRLF + end;
    LineIsTaken(n1, v1, second);
    LineIsTaken(n2, v2, end);
    EmptyLineEnds(rest);
    assert Headers(second) == Some(Front([(n2, v2)] + [], rest));
    assert [(n1, v1)] + ([(n2, v2)] + []) == [(n1, v1), (n2, v2)];
  }

  lemma EmptyLineEnds(rest: seq<byte>)
    ensures Headers(CRLF + rest) == Some(Front([], rest))
  {
    assert (CRLF + rest)[..2] == CRLF && (CRLF + rest)[2..] == rest;
  }

  predicate TextPiece(v: seq<byte>) { v != [] && Utf8.Valid(v) && CR !in v }

  lemma ParamIsText(key: seq<byte>, v: seq<byte>)
    requires Token(key) && Attribute(v)
    ensures TextPiece(Param(key, v))
  {
    var front := [SPACE] + key + [EQUALS, QUOTE];
    ValidBetween(front, v, [QUOTE]);
    assert front + v + [QUOTE] == Param(key, v);
    ParamHoldsNo(key, v, CR);
  }

  lemma ValidBetween(front: seq<byte>, v: seq<byte>, back: seq<byte>)
    requires Utf8.Ascii(front) && Utf8.Valid(v) && Utf8.Ascii(back)
    ensures Utf8.Valid(front + v + back)
  {
    Utf8.AsciiIsValid(front);
    Utf8.AsciiIsValid(back);
    Utf8.ValidConcat(front, v);
    Utf8.ValidConcat(front + v, back);
  }

  lemma {:induction false} JoinedIsText(pieces: seq<seq<byte>>)
    requires |pieces| >= 1 && forall i :: 0 <= i < |pieces| ==> TextPiece(pieces[i])
    ensures var j, last := Join(pieces, SEMI), pieces[|pieces| - 1];
            TextPiece(j) && pieces[0] != [] && last != [] && j[0] == pieces[0][0] && j[|j| - 1] == last[|last| - 1]
    decreases |pieces|
  {
    if |pieces| > 1 {
      JoinedIsText(pieces[1..]);
      PieceAhead(pieces[0], Join(pieces[1..], SEMI));
    }
  }

  lemma PieceAhead(p: seq<byte>, j: seq<byte>)
    requires TextPiece(p) && TextPiece(j)
    ensures var both := p + [SEMI] + j; TextPiece(both) && both[0] == p[0] && both[|both| - 1] == j[|j| - 1]
  {
    Utf8.AsciiIsValid([SEMI]);
    Utf8.ValidConcat(p, [SEMI]);
    Utf8.ValidConcat(p + [SEMI], j);
  }

  lemma DispositionIsText(u: Upload, w: Words)
    requires Sendable(u) && Known(w)
    ensures HeaderValue(Disposition(u, w))
  {
    TokenIsText(w.formData);
    ParamIsText(w.nameKey, u.name);
    if u.filename.Some? { ParamIsText(w.filenameKey, u.filename.value); }
    JoinedIsText(DispositionParams(u, w));
  }

  function HeadersOf(u: Upload, w: Words): seq<Header>
  {
    [(w.disposition, Disposition(u, w)), (w.typeHeader, w.contentType)]
  }

  lemma BlockIsRead(u: Upload, w: Words, rest: seq<byte>)
    requires Sendable(u) && Known(w)
    ensures Headers(BlockText(u, w, rest)) == Some(Front(HeadersOf(u, w), rest))
  {
    TokenIsText(w.disposition);
    TokenIsText(w.typeHeader);
    TokenIsText(w.contentType);
    DispositionIsText(u, w);
    TwoLinesAreRead(w.disposition, Disposition(u, w), w.typeHeader, w.contentType, rest);
  }

  lemma ReadHeadersTwo(a: Header, b: Header, p: Part)
    ensures ReadHeaders([a, b], p) == ReadHeader(b, ReadHeader(a, p))
  {
    var q := ReadHeader(a, p);
    assert [a, b][1..] == [b] && [b][1..] == [];
    assert ReadHeaders([b], q) == ReadHeaders([], ReadHeader(b, q));
  }

  lemma UploadIsDescribed(u: Upload, w: Words, data: seq<byte>)
    requires Sendable(u) && Known(w)
    ensures ReadHeaders(HeadersOf(u, w), Unnamed(data)) == Received(u, w).(data := data)
  {
    NamesDiffer();
    ReadHeadersTwo(HeadersOf(u, w)[0], HeadersOf(u, w)[1], Unnamed(data));
    DispositionIsRead(u, w, Unnamed(data));
  }

  // ---- the content ----

  /** A boundary without a carriage return cannot overlap itself, so content is cut at the
      boundary line sent after it exactly when it holds none of its own. */
  lemma ContentIsWholeIff(content: seq<byte>, boundary: seq<byte>, rest: seq<byte>)
    requires CR !in boundary
    ensures Find(content + InterBoundary(boundary) + rest, InterBoundary(boundary)) == Some(|content|)
      <==> !Contains(content, InterBoundary(boundary))
  {
    var needle := InterBoundary(boundary);
    var s := content + needle + rest;
    FindIsFirst(s, needle);
    assert s[|content|..|content| + |needle|] == needle;
    assert HasAt(s, needle, |content|);
    NoStraddle(content, boundary, rest);
    if Contains(content, needle) {
      var k :| HasAt(content, needle, k);
      assert HasAt(s, needle, k);
    }
  }

  lemma NoStraddle(content: seq<byte>, boundary: seq<byte>, rest: seq<byte>)
    requires CR !in boundary
    ensures var needle := InterBoundary(boundary);
            forall k :: 0 <= k < |content| ==> HasAt(content + needle + rest, needle, k) == HasAt(content, needle, k)
  {
    var needle := InterBoundary(boundary);
    var s := content + needle + rest;
    forall k | 0 <= k < |content|
      ensures HasAt(s, needle, k) == HasAt(content, needle, k)
    {
      if k + |needle| <= |content| {
        assert s[k..k + |needle|] == content[k..k + |needle|];
      } else if k + |needle| <= |s| {
        var d := |content| - k;
        assert s[k..k + |needle|][d] == CR && needle[d] != CR;
      }
    }
  }

  lemma UploadIsTaken(u: Upload, w: Words, boundary: seq<byte>, rest: seq<byte>)
    requires Sendable(u) && Known(w) && CR !in boundary
    ensures var inter := InterBoundary(boundary);
            var t := TakeContent(HeadersOf(u, w), u.content + inter + rest, inter);
            if Contains(u.content, inter) then t.Took? && t.part != Received(u, w) && t.part.name != []
            else t == Took(Received(u, w), rest)
  {
    var inter := InterBoundary(boundary);
    var s := u.content + inter + rest;
    ContentIsWholeIff(u.content, boundary, rest);
    FindIsFirst(s, inter);
    assert s[|u.content|..|u.content| + |inter|] == inter;
    assert HasAt(s, inter, |u.content|);
    var at := Find(s, inter).value;
    UploadIsDescribed(u, w, s[..at]);
    if at == |u.content| {
      assert s[..at] == u.content && s[at + |inter|..] == rest;
    } else {
      assert |s[..at]| != |u.content|;
    }
  }

  // ---- the whole body ----

  lemma PartIsTaken(u: Upload, w: Words, boundary: seq<byte>, rest: seq<byte>)
    requires Sendable(u) && Known(w)
    ensures TakePart(CRLF + BlockText(u, w, rest), boundary)
      == TakeContent(HeadersOf(u, w), rest, InterBoundary(boundary))
  {
    var b := CRLF + BlockText(u, w, rest);
    assert b[0] == CR && b[2..] == BlockText(u, w, rest) && CRLF <= b && !(DASHES <= b);
    BlockIsRead(u, w, rest);
  }

  lemma FirstPartOfTail(u: Upload, w: Words, boundary: seq<byte>, rest: seq<byte>)
    requires Sendable(u) && Known(w) && CR !in boundary
    ensures var inter := InterBoundary(boundary);
            var ps := Parts(CRLF + BlockText(u, w, u.content + inter + rest), boundary);
            if Contains(u.content, inter) then |ps| >= 1 && ps[0] != Received(u, w)
            else ps == [Received(u, w)] + Parts(rest, boundary)
  {
    PartIsTaken(u, w, boundary, u.content + InterBoundary(boundary) + rest);
    UploadIsTaken(u, w, boundary, rest);
  }

  function ReceivedAll(us: seq<Upload>, w: Words): (r: seq<Part>)
    ensures |r| == |us|
  {
    seq(|us|, i requires 0 <= i < |us| => Received(us[i], w))
  }

  /** No content holds a boundary line of its own. */
  ghost predicate AllUncut(us: seq<Upload>, boundary: seq<byte>)
  {
    forall i :: 0 <= i < |us| ==> !Contains(us[i].content, InterBoundary(boundary))
  }

  lemma {:induction false} TailComesBackIff(us: seq<Upload>, boundary: seq<byte>, w: Words)
    requires CR !in boundary && Known(w) && forall i :: 0 <= i < |us| ==> Sendable(us[i])
    ensures Parts(Tail(us, boundary, w), boundary) == ReceivedAll(us, w) <==> AllUncut(us, boundary)
    decreases |us|
  {
    if us == [] {
      assert DASHES <= Tail(us, boundary, w);
    } else {
      var first, more := Received(us[0], w), Parts(Tail(us[1..], boundary, w), boundary);
      FirstPartOfTail(us[0], w, boundary, Tail(us[1..], boundary, w));
      TailComesBackIff(us[1..], boundary, w);
      FirstOfAll(us, w);
      HeadAndTail(us, boundary);
      SameTails(first, more, ReceivedAll(us[1..], w));
    }
  }

  lemma SameTails(first: Part, a: seq<Part>, b: seq<Part>)
    ensures [first] + a == [first] + b <==> a == b
  {
    assert ([first] + a)[1..] == a && ([first] + b)[1..] == b;
  }

  lemma FirstOfAll(us: seq<Upload>, w: Words)
    requires us != []
    ensures ReceivedAll(us, w) == [Received(us[0], w)] + ReceivedAll(us[1..], w)
  {
  }

  lemma HeadAndTail(us: seq<Upload>, boundary: seq<byte>)
    requires us != []
    ensures AllUncut(us, boundary) <==> !Contains(us[0].content, InterBoundary(boundary)) && AllUncut(us[1..], boundary)
  {
    assert forall i :: 1 <= i < |us| ==> us[1..][i - 1] == us[i];
  }

  /** Parsing an assembled body gives back exactly the names, filenames and contents sent, in
      order, if and only if no content holds a boundary line of its own. */
  lemma UploadsComeBackIff(us: seq<Upload>, boundary: seq<byte>, w: Words)
    requires CR !in boundary && Known(w) && forall i :: 0 <= i < |us| ==> Sendable(us[i])
    ensures Parse(Body(us, boundary, w), boundary) == ReceivedAll(us, w) <==> AllUncut(us, boundary)
  {
    var d := DASHES + boundary;
    var body := Body(us, boundary, w);
    assert body[..|d|] == d && body[|d|..] == Tail(us, boundary, w);
    TailComesBackIff(us, boundary, w);
  }

  lemma WordIsToken(s: string)
    requires s != "" && forall i :: 0 <= i < |s| ==> '!' <= s[i] <= '~' && s[i] !in "\":;="
    ensures Token(Ascii(s))
  {
  }

  lemma TokensOfCorpus()
    ensures Token(Ascii("Content-Disposition")) && Token(Ascii("form-data")) && Token(Ascii("name"))
    ensures Token(Ascii("filename")) && Token(Ascii("Content-Type")) && Token(Ascii("application/octet-stream"))
  {
    WordIsToken("Content-Disposition");
    WordIsToken("form-data");
    WordIsToken("name");
    WordIsToken("filename");
    WordIsToken("Content-Type");
    WordIsToken("application/octet-stream");
  }

  lemma CaseOfCorpus()
    ensures Lower(Ascii("Content-Disposition")) == Ascii("content-disposition")
    ensures Lower(Ascii("Content-Type")) == Ascii("content-type")
    ensures Lower(Ascii("name")) == Ascii("name") && Lower(Ascii("filename")) == Ascii("filename")
  {
  }

  /** The corpus runner's own words are among those the parser knows. */
  lemma CorpusWordsAreKnown()
    ensures Known(CorpusWords())
  {
    TokensOfCorpus();
    CaseOfCorpus();
  }
}
