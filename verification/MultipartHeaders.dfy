/** What a part's header block says: which lines and parameters count, and which of several wins. */
module MultipartHeaders {
  import opened Bits
  import opened Seqs
  import opened Multipart
  import Utf8

  // ---- lines ----

  /** A line without a colon is passed over. */
  lemma LineWithoutColon(line: seq<byte>, rest: seq<byte>)
    requires line != [] && COLON !in line && CR !in line
    ensures Headers(line + CRLF + rest) == Headers(rest)
  {
    LineIsFound(line, rest);
    NothingAhead(Headers(rest));
  }

  /** A line with a colon that is no text gives up the block. */
  lemma LineThatIsNoText(line: seq<byte>, rest: seq<byte>)
    requires COLON in line && CR !in line && HeaderOf(line).Bad?
    ensures Headers(line + CRLF + rest) == None
  {
    LineIsFound(line, rest);
  }

  lemma BadIff(name: seq<byte>, value: seq<byte>)
    requires COLON !in name
    ensures HeaderOf(name + [COLON] + value).Bad? <==> !Utf8.Valid(name) || !Utf8.Valid(value)
  {
    IndexOfPiece(name, value, COLON);
    var line := name + [COLON] + value;
    assert line[..|name|] == name && line[|name| + 1..] == value;
  }

  lemma LineIsFound(line: seq<byte>, rest: seq<byte>)
    requires CR !in line
    ensures TakeLine(line + CRLF + rest) == EndedLine(line, rest)
  {
    var b := line + CRLF + rest;
    FindAfterPiece(line, CRLF, rest);
    assert b[..|line|] == line && b[|line| + 2..] == rest;
  }

  /** White space of ASCII. */
  predicate Padding(s: seq<byte>) { forall i :: 0 <= i < |s| ==> s[i] in [0x09, 0x0A, 0x0B, 0x0C, 0x0D, 0x20] }

  lemma {:induction false} StartIsTrimmed(pad: seq<byte>, s: seq<byte>)
    requires Padding(pad)
    ensures TrimStart(pad + s) == TrimStart(s)
    decreases |pad|
  {
    if pad == [] {
      assert pad + s == s;
    } else {
      StartIsTrimmed(pad[1..], s);
      assert (pad + s)[1..] == pad[1..] + s && White((pad + s)[0]);
    }
  }

  lemma {:induction false} EndIsTrimmed(s: seq<byte>, pad: seq<byte>)
    requires Padding(pad)
    ensures TrimEnd(s + pad) == TrimEnd(s)
    decreases |pad|
  {
    if pad == [] {
      assert s + pad == s;
    } else {
      var last := |pad| - 1;
      EndIsTrimmed(s, pad[..last]);
      assert (s + pad)[..|s + pad| - 1] == s + pad[..last] && White((s + pad)[|s + pad| - 1]);
    }
  }

  /** Padding behind a text does not make its head white. */
  lemma HeadStays(t: seq<byte>, pad: seq<byte>)
    requires t != [] && WhiteHead(t) == 0 && Padding(pad)
    ensures WhiteHead(t + pad) == 0
  {
    assert forall i :: 0 <= i < |t| ==> (t + pad)[i] == t[i];
    assert forall i :: |t| <= i < |t + pad| ==> (t + pad)[i] == pad[i - |t|] && (t + pad)[i] < 0x80;
  }

  /** Trimming takes padding off both ends, and nothing from a text that has white space at neither. */
  lemma PaddingIsTrimmed(pad: seq<byte>, t: seq<byte>, pad': seq<byte>)
    requires Padding(pad) && Padding(pad') && t != [] && WhiteHead(t) == 0 && WhiteTail(t) == 0
    ensures Trim(pad + t + pad') == t
  {
    StartIsTrimmed(pad, t + pad');
    assert pad + t + pad' == pad + (t + pad');
    HeadStays(t, pad');
    NothingToTrim(t + pad');
    EndIsTrimmed(t, pad');
    NothingToTrim(t);
    TrimIs(pad + t + pad', t + pad', t);
  }

  lemma NothingToTrim(s: seq<byte>)
    ensures WhiteHead(s) == 0 ==> TrimStart(s) == s
    ensures WhiteTail(s) == 0 ==> TrimEnd(s) == s
  {
  }

  lemma TrimIs(whole: seq<byte>, tail: seq<byte>, t: seq<byte>)
    requires TrimStart(whole) == tail && TrimEnd(tail) == t
    ensures Trim(whole) == t
  {
  }

  predicate Tight(t: seq<byte>) { t != [] && WhiteHead(t) == 0 && WhiteTail(t) == 0 && Utf8.Valid(t) }

  /** So a header is its name and its value however they are padded. */
  lemma PaddedHeader(a: seq<byte>, name: seq<byte>, b: seq<byte>, c: seq<byte>, value: seq<byte>, d: seq<byte>)
    requires Padding(a) && Padding(b) && Padding(c) && Padding(d) && Tight(name) && Tight(value) && COLON !in name
    ensures HeaderOf(a + name + b + [COLON] + (c + value + d)) == Good((name, value))
  {
    SideIs(a, name, b);
    SideIs(c, value, d);
    HeaderIsCut(a + name + b, c + value + d);
  }

  lemma SideIs(pad: seq<byte>, t: seq<byte>, pad': seq<byte>)
    requires Padding(pad) && Padding(pad') && Tight(t)
    ensures Utf8.Valid(pad + t + pad') && Trim(pad + t + pad') == t
    ensures COLON !in t ==> COLON !in pad + t + pad'
  {
    PaddedIsValid(pad, t, pad');
    PaddingIsTrimmed(pad, t, pad');
  }

  lemma HeaderIsCut(left: seq<byte>, right: seq<byte>)
    requires COLON !in left && Utf8.Valid(left) && Utf8.Valid(right)
    ensures HeaderOf(left + [COLON] + right) == Good((Trim(left), Trim(right)))
  {
    IndexOfPiece(left, right, COLON);
    var line := left + [COLON] + right;
    assert line[..|left|] == left && line[|left| + 1..] == right;
  }

  lemma PaddedIsValid(pad: seq<byte>, t: seq<byte>, pad': seq<byte>)
    requires Padding(pad) && Padding(pad') && Utf8.Valid(t)
    ensures Utf8.Valid(pad + t + pad')
  {
    Utf8.AsciiIsValid(pad);
    Utf8.AsciiIsValid(pad');
    Utf8.ValidConcat(pad, t);
    Utf8.ValidConcat(pad + t, pad');
  }

  // ---- headers and parameters ----

  predicate Describes(h: Header) { Lower(h.0) == Ascii("content-disposition") || Lower(h.0) == Ascii("content-type") }

  lemma {:induction false} HeadersConcat(a: seq<Header>, b: seq<Header>, p: Part)
    ensures ReadHeaders(a + b, p) == ReadHeaders(b, ReadHeaders(a, p))
    decreases |a|
  {
    if a == [] {
      assert a + b == b;
    } else {
      HeadersConcat(a[1..], b, ReadHeader(a[0], p));
      assert (a + b)[1..] == a[1..] + b;
    }
  }

  lemma OneHeader(h: Header, p: Part)
    ensures ReadHeaders([h], p) == ReadHeader(h, p)
  {
    assert ReadHeaders([h][1..], ReadHeader(h, p)) == ReadHeader(h, p);
  }

  /** A header of another name, anywhere in the block, changes nothing. */
  lemma OtherHeader(a: seq<Header>, h: Header, b: seq<Header>, p: Part)
    requires !Describes(h)
    ensures ReadHeaders(a + [h] + b, p) == ReadHeaders(a + b, p)
  {
    HeadersConcat(a + [h], b, p);
    HeadersConcat(a, [h], p);
    HeadersConcat(a, b, p);
    OneHeader(h, ReadHeaders(a, p));
  }

  /** The content type is the value of the last header that gives one, its name in any case. */
  lemma LastContentType(a: seq<Header>, h: Header, b: seq<Header>, p: Part)
    requires Lower(h.0) == Ascii("content-type")
    requires forall i :: 0 <= i < |b| ==> Lower(b[i].0) != Ascii("content-type")
    ensures ReadHeaders(a + [h] + b, p).contentType == Some(h.1)
  {
    HeadersConcat(a + [h], b, p);
    HeadersConcat(a, [h], p);
    OneHeader(h, ReadHeaders(a, p));
    NamesDiffer();
    TypeIsKept(b, ReadHeaders(a + [h], p));
  }

  lemma NamesDiffer()
    ensures Ascii("content-type") != Ascii("content-disposition") && Ascii("name") != Ascii("filename")
  {
    assert |Ascii("content-type")| == 12 && |Ascii("content-disposition")| == 19;
    assert |Ascii("name")| == 4 && |Ascii("filename")| == 8;
  }

  lemma {:induction false} TypeIsKept(headers: seq<Header>, p: Part)
    requires forall i :: 0 <= i < |headers| ==> Lower(headers[i].0) != Ascii("content-type")
    ensures ReadHeaders(headers, p).contentType == p.contentType
    decreases |headers|
  {
    if headers != [] {
      if Lower(headers[0].0) == Ascii("content-disposition") { ParamsKeepType(Split(headers[0].1, SEMI), p); }
      TypeIsKept(headers[1..], ReadHeader(headers[0], p));
    }
  }

  lemma {:induction false} ParamsKeepType(params: seq<seq<byte>>, p: Part)
    ensures ReadParams(params, p).contentType == p.contentType
    decreases |params|
  {
    if params != [] { ParamsKeepType(params[1..], ReadParam(params[0], p)); }
  }

  /** The key of a parameter, if it has one. */
  function KeyOf(raw: seq<byte>): Option<seq<byte>>
  {
    match IndexOf(Trim(raw), EQUALS) case None => None case Some(eq) => Some(Lower(Trim(Trim(raw)[..eq])))
  }

  lemma {:induction false} ParamsConcat(a: seq<seq<byte>>, b: seq<seq<byte>>, p: Part)
    ensures ReadParams(a + b, p) == ReadParams(b, ReadParams(a, p))
    decreases |a|
  {
    if a == [] {
      assert a + b == b;
    } else {
      var next := ReadParam(a[0], p);
      ParamsFirst(a, p, next);
      ParamsFirst(a + b, p, next);
      assert (a + b)[1..] == a[1..] + b;
      ParamsConcat(a[1..], b, next);
    }
  }

  lemma ParamsFirst(params: seq<seq<byte>>, p: Part, next: Part)
    requires params != [] && next == ReadParam(params[0], p)
    ensures ReadParams(params, p) == ReadParams(params[1..], next)
  {
  }

  lemma OneParam(raw: seq<byte>, p: Part)
    ensures ReadParams([raw], p) == ReadParam(raw, p)
  {
    assert ReadParams([raw][1..], ReadParam(raw, p)) == ReadParam(raw, p);
  }

  /** A parameter with another key, or with none, changes nothing. */
  lemma OtherParam(a: seq<seq<byte>>, raw: seq<byte>, b: seq<seq<byte>>, p: Part)
    requires KeyOf(raw) != Some(Ascii("name")) && KeyOf(raw) != Some(Ascii("filename"))
    ensures ReadParams(a + [raw] + b, p) == ReadParams(a + b, p)
  {
    ParamsConcat(a + [raw], b, p);
    ParamsConcat(a, [raw], p);
    ParamsConcat(a, b, p);
    OneParam(raw, ReadParams(a, p));
  }

  /** Of several names the last one counts, and of several filenames. */
  lemma LastNameCounts(a: seq<seq<byte>>, raw: seq<byte>, b: seq<seq<byte>>, p: Part)
    requires KeyOf(raw).Some? && (KeyOf(raw).value == Ascii("name") || KeyOf(raw).value == Ascii("filename"))
    requires forall i :: 0 <= i < |b| ==> KeyOf(b[i]) != KeyOf(raw)
    ensures var value := Unquote(Trim(Trim(raw)[IndexOf(Trim(raw), EQUALS).value + 1..]));
            var r := ReadParams(a + [raw] + b, p);
            if KeyOf(raw).value == Ascii("name") then r.name == value else r.filename == Some(value)
  {
    ParamsConcat(a + [raw], b, p);
    ParamsConcat(a, [raw], p);
    OneParam(raw, ReadParams(a, p));
    NamesDiffer();
    KeyIsKept(b, KeyOf(raw).value, ReadParams(a + [raw], p));
  }

  lemma {:induction false} KeyIsKept(params: seq<seq<byte>>, key: seq<byte>, p: Part)
    requires forall i :: 0 <= i < |params| ==> KeyOf(params[i]) != Some(key)
    ensures var r := ReadParams(params, p);
            && (key == Ascii("name") ==> r.name == p.name) && (key == Ascii("filename") ==> r.filename == p.filename)
    decreases |params|
  {
    if params != [] { KeyIsKept(params[1..], key, ReadParam(params[0], p)); }
  }
}
