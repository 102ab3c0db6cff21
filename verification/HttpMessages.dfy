/** Whole responses against RFC 9112, in both directions: the parser returns a response exactly if its bytes stand
    at the front of what was received. */
module HttpMessages {
  import opened Text
  import opened HttpResponses
  import opened HttpDelivery
  import opened HttpGrammar
  import opened HttpHeads

  // ---- chunked bodies

  ghost predicate GoodTrailers(ls: seq<string>) { forall i :: 0 <= i < |ls| ==> ls[i] != [] && NoLineBreak(ls[i]) }

  ghost predicate GoodChunks(cs: seq<Chunk>) { forall i :: 0 <= i < |cs| ==> WellFormedChunk(cs[i]) }

  /** Section 7.1: chunks, the last one of size 0, trailer lines and an empty line. */
  ghost predicate ChunkedAs(
    t: string, body: string, cs: seq<Chunk>, size: string, extension: string, trailers: seq<string>)
  {
    && GoodChunks(cs) && IsSizeLine(size, extension, 0) && GoodTrailers(trailers)
    && t == EncodeChunks(cs) + EncodeEnd(size, extension, trailers) && body == Bodies(cs) && |body| <= 16777216
  }

  ghost predicate IsChunked(t: string, body: string) {
    exists cs, size, extension, trailers :: ChunkedAs(t, body, cs, size, extension, trailers)
  }

  /** The text up to a break has none in it. */
  lemma UpToBreak(s: string, p: nat)
    requires Search(s, CRLF, p).Some?
    ensures var e := Search(s, CRLF, p).value;
      p <= e && e + 2 <= |s| && NoLineBreak(s[p..e]) && s[e..e + 2] == CRLF
  {
    var e := Search(s, CRLF, p).value;
    assert StartsWith(s, e, CRLF) && forall q :: p <= q < e ==> !StartsWith(s, q, CRLF);
    hide Search;
    forall i | 0 <= i < e - p - 1 ensures !(s[p..e][i] == '\r' && s[p..e][i + 1] == '\n') {
      TwoCharacters(s, p + i, CRLF);
    }
  }

  lemma {:induction false} TrailersBehind(s: string, p: nat) returns (ls: seq<string>)
    requires p <= |s| && TrailerEnd(s, p).Some?
    ensures GoodTrailers(ls) && s[p..TrailerEnd(s, p).value] == EncodeTrailers(ls)
    decreases |s| - p
  {
    hide Search, NoLineBreak;
    UpToBreak(s, p);
    var e := Search(s, CRLF, p).value;
    if e == p {
      ls := [];
    } else {
      var rest := TrailersBehind(s, e + 2);
      var end := TrailerEnd(s, p).value;
      ls := [s[p..e]] + rest;
      assert ls[1..] == rest;
      assert s[p..end] == s[p..e] + s[e..e + 2] + s[e + 2..end];
    }
  }

  /** A size line in its parts. */
  lemma SizeBehind(line: string) returns (size: string, extension: string)
    requires ChunkSize(line).Some? && NoLineBreak(line)
    ensures line == size + extension && IsSizeLine(size, extension, ChunkSize(line).value)
  {
    var semicolon := Search(line, ";", 0);
    var k := if semicolon.Some? then semicolon.value else |line|;
    if semicolon.Some? { OneCharacter(line, k, ';'); }
    size, extension := line[..k], line[k..];
    assert forall i :: 0 <= i < |extension| ==> extension[i] == line[k + i];
    hide Search, Trim;
    var lead, trail := TrimCuts(size);
    assert line[..|line|] == line;
    assert Padded(size, lead, Trim(size), trail);
    assert IsSize(size, Trim(size), ChunkSize(line).value);
  }

  /** What is decoded is a chunked text. */
  lemma {:induction false} ChunksBehind(s: string, p: nat, body: string)
    returns (cs: seq<Chunk>, size: string, extension: string, trailers: seq<string>)
    requires p <= |s| && |body| <= 16777216 && Chunked(s, p, body).Done?
    ensures var r := Chunked(s, p, body);
      && GoodChunks(cs) && IsSizeLine(size, extension, 0) && GoodTrailers(trailers)
      && s[p..r.end] == EncodeChunks(cs) + EncodeEnd(size, extension, trailers)
      && r.body == body + Bodies(cs) && |r.body| <= 16777216
    decreases |s| - p
  {
    hide Search, NoLineBreak, ChunkSize, IsSizeLine, GoodTrailers, TrailerEnd, Chunked;
    ChunkStep(s, p, body);
    var r := Chunked(s, p, body);
    UpToBreak(s, p);
    var e := Search(s, CRLF, p).value;
    var size', extension' := SizeBehind(s[p..e]);
    var n, start := ChunkSize(s[p..e]).value, e + 2;
    if n == 0 {
      cs, size, extension := [], size', extension';
      trailers := TrailersBehind(s, start);
      EndOf(s, p, e, r.end, size, extension, trailers);
      assert body + Bodies(cs) == body;
    } else {
      var next := start + n + 2;
      var more;
      more, size, extension, trailers := ChunksBehind(s, next, body + s[start..start + n]);
      var c := Chunk(size', extension', s[start..start + n]);
      cs := [c] + more;
      assert WellFormedChunk(c) && cs[1..] == more;
      OneMoreChunk(s, p, e, n, r.end, c, EncodeChunks(more) + EncodeEnd(size, extension, trailers));
      assert body + (c.data + Bodies(more)) == body + c.data + Bodies(more);
      JoinChunks(c, more, EncodeEnd(size, extension, trailers));
    }
  }

  lemma EndOf(s: string, p: nat, e: nat, end: nat, size: string, extension: string, trailers: seq<string>)
    requires p <= e && e + 2 <= end <= |s| && s[p..e] == size + extension && s[e..e + 2] == CRLF
    requires s[e + 2..end] == EncodeTrailers(trailers)
    ensures s[p..end] == EncodeChunks([]) + EncodeEnd(size, extension, trailers)
  {
    hide EncodeTrailers;
    assert s[p..end] == s[p..e] + s[e..e + 2] + s[e + 2..end];
  }

  lemma OneMoreChunk(s: string, p: nat, e: nat, n: nat, end: nat, c: Chunk, rest: string)
    requires p <= e && e + 2 + n + 2 <= end <= |s| && s[p..e] == c.size + c.extension && s[e..e + 2] == CRLF
    requires c.data == s[e + 2..e + 2 + n] && s[e + 2 + n..e + 2 + n + 2] == CRLF && s[e + 2 + n + 2..end] == rest
    ensures s[p..end] == c.size + c.extension + CRLF + c.data + CRLF + rest
  {
    assert s[p..end] == s[p..e] + s[e..e + 2] + s[e + 2..e + 2 + n] + s[e + 2 + n..e + 2 + n + 2] + s[e + 2 + n + 2..end];
  }

  lemma JoinChunks(c: Chunk, more: seq<Chunk>, end: string)
    ensures EncodeChunks([c] + more) + end == c.size + c.extension + CRLF + c.data + CRLF + (EncodeChunks(more) + end)
  {
    assert ([c] + more)[1..] == more;
    assert EncodeChunks([c] + more) + end == (c.size + c.extension + CRLF + c.data + CRLF + EncodeChunks(more)) + end;
  }

  /** A chunked body is decoded exactly if it stands there. */
  lemma ChunkedExactly(s: string, p: nat, end: nat, body: string)
    requires p <= end <= |s|
    ensures Chunked(s, p, "") == Done(end, body) <==> IsChunked(s[p..end], body)
  {
    hide Chunked, IsSizeLine, GoodTrailers, GoodChunks, EncodeEnd, EncodeChunks, Bodies;
    if Chunked(s, p, "") == Done(end, body) {
      var cs, size, extension, trailers := ChunksBehind(s, p, "");
      assert "" + Bodies(cs) == Bodies(cs);
      assert ChunkedAs(s[p..end], body, cs, size, extension, trailers);
    }
    if IsChunked(s[p..end], body) {
      var cs, size, extension, trailers :| ChunkedAs(s[p..end], body, cs, size, extension, trailers);
      var t := EncodeChunks(cs) + EncodeEnd(size, extension, trailers);
      assert p + |t| == end && StartsWith(s, p, t);
      assert "" + Bodies(cs) == Bodies(cs);
      ChunksAreRead(s, p, cs, size, extension, trailers);
    }
  }

  lemma ChunksAreRead(s: string, p: nat, cs: seq<Chunk>, size: string, extension: string, trailers: seq<string>)
    requires GoodChunks(cs) && IsSizeLine(size, extension, 0) && GoodTrailers(trailers) && |Bodies(cs)| <= 16777216
    requires StartsWith(s, p, EncodeChunks(cs) + EncodeEnd(size, extension, trailers))
    ensures p <= |s|
    ensures Chunked(s, p, "") == Done(p + |EncodeChunks(cs) + EncodeEnd(size, extension, trailers)|, "" + Bodies(cs))
  {
    hide Chunked, IsSizeLine, NoLineBreak, WellFormedChunk, EncodeEnd, StartsWith;
    ChunkedRoundTrip(s, p, "", cs, size, extension, trailers);
  }

  // ---- responses

  /** A head: its status line and fields, the version and the length they give. */
  datatype Head = Head(line: string, fields: seq<Field>, http10: bool, length: Option<nat>)

  function HeadText(h: Head): string { JoinedLines([h.line] + Texts(h.fields)) }

  ghost predicate GoodHead(h: Head, status: int) {
    && status >= 0 && NoLineBreak(h.line) && GoodFields(h.fields) && IsStatusLine(h.line, status, h.http10)
    && LengthIs(h.fields, h.length) && |HeadText(h)| <= 65536
  }

  /** What the connection field says, or else that HTTP/1.0 closes and later versions keep. */
  ghost function KeepsAlive(h: Head): bool {
    match SaysConnection(h.fields) case Some(keep) => keep case None => !h.http10
  }

  /** What the head says, all together. */
  ghost function WhatIsSaid(h: Head, status: int): Headers {
    Headers(status, h.http10, h.length, SaysChunked(h.fields), SaysConnection(h.fields))
  }

  /** The body by the rules of section 6.3, in the order of the source. */
  ghost predicate HasBody(data: string, eof: bool, h: Head, r: HttpResponse, n: nat) {
    var start := |HeadText(h)| + 4;
    && start <= n <= |data|
    && if SaysChunked(h.fields) then r.keepAlive == KeepsAlive(h) && IsChunked(data[start..n], r.body)
       else if h.length.Some? then
         && r.keepAlive == KeepsAlive(h) && h.length.value <= 16777216
         && n == start + h.length.value && r.body == data[start..n]
       else if r.status < 200 || r.status == 204 || r.status == 304 then
         r.keepAlive == KeepsAlive(h) && n == start && r.body == ""
       else eof && !r.keepAlive && n == |data| && n - start <= 16777216 && r.body == data[start..]
  }

  /** The first `n` bytes of `data` are the response `r` with head `h`. */
  ghost predicate IsResponse(data: string, eof: bool, h: Head, r: HttpResponse, n: nat) {
    GoodHead(h, r.status) && StartsWith(data, 0, HeadText(h) + "\r\n\r\n") && HasBody(data, eof, h, r, n)
  }

  lemma HeadTextIsHead(h: Head, status: int)
    requires GoodHead(h, status)
    ensures IsHead(HeadText(h), h.line, h.fields)
  {
    hide JoinedLines, NoLineBreak, GoodFields;
  }

  /** A response's head is found, and read as what it says. */
  lemma HeadIsParsed(data: string, h: Head, status: int)
    requires GoodHead(h, status) && StartsWith(data, 0, HeadText(h) + "\r\n\r\n")
    ensures var n := |HeadText(h)|;
      && n + 4 <= |data| && Search(data, BLANK_LINE, 0) == Some(n)
      && ParsedHeaders(data[..n]) == Some(WhatIsSaid(h, status))
  {
    HeadTextIsHead(h, status);
    hide JoinedLines, NoLineBreak, GoodFields, Search, ParsedHeaders, IsStatusLine, LengthIs;
    HeadHasGoodLines(HeadText(h), h.line, h.fields);
    HeadIsFound(data, [h.line] + Texts(h.fields));
    HeadIsRead(HeadText(h), h.line, h.fields, WhatIsSaid(h, status));
  }

  /** The body that is read is the body that is there. */
  lemma BodyIsParsed(data: string, eof: bool, h: Head, r: HttpResponse, n: nat)
    requires |HeadText(h)| + 4 <= |data|
    ensures WithBody(data, WhatIsSaid(h, r.status), |HeadText(h)| + 4, eof)
         == Complete(r, n)
       <==> HasBody(data, eof, h, r, n)
  {
    hide HeadText, Chunked, IsChunked, SaysConnection;
    var start := |HeadText(h)| + 4;
    if SaysChunked(h.fields) {
      var c := Chunked(data, start, "");
      if c.Done? { ChunkedExactly(data, start, c.end, r.body); }
      if start <= n <= |data| { ChunkedExactly(data, start, n, r.body); }
    } else {
      hide SaysChunked;
      assert data[start..] == data[start..|data|];
    }
  }

  /** The parser returns a response and its end exactly if the bytes are one. */
  lemma ParserMatchesGrammar(data: string, eof: bool, r: HttpResponse, n: nat)
    ensures ParsedHttp(data, eof) == Complete(r, n) <==> exists h :: IsResponse(data, eof, h, r, n)
  {
    hide GoodHead, HeadText, StartsWith, Search, ParsedHeaders, WithBody, HasBody;
    if ParsedHttp(data, eof) == Complete(r, n) {
      var h := HeadOf(data, eof, r);
      BodyIsParsed(data, eof, h, r, n);
      assert IsResponse(data, eof, h, r, n);
    }
    forall h | IsResponse(data, eof, h, r, n) ensures ParsedHttp(data, eof) == Complete(r, n) {
      HeadIsParsed(data, h, r.status);
      BodyIsParsed(data, eof, h, r, n);
      assert |HeadText(h)| <= MAX_HEADER by { HeadIsShort(h, r.status); }
    }
  }

  lemma HeadIsShort(h: Head, status: int)
    requires GoodHead(h, status)
    ensures |HeadText(h)| <= 65536
  {}

  lemma HeadOf(data: string, eof: bool, r: HttpResponse) returns (h: Head)
    requires ParsedHttp(data, eof).Complete? && ParsedHttp(data, eof).response == r
    ensures GoodHead(h, r.status) && StartsWith(data, 0, HeadText(h) + "\r\n\r\n") && |HeadText(h)| + 4 <= |data|
    ensures ParsedHttp(data, eof)
         == WithBody(data, WhatIsSaid(h, r.status), |HeadText(h)| + 4, eof)
  {
    hide Search, ParsedHeaders, WithBody, JoinedLines, NoLineBreak, GoodFields, IsStatusLine, LengthIs;
    hide SaysChunked, SaysConnection;
    var n := Search(data, BLANK_LINE, 0).value;
    BlankIsFound(data, n);
    var line, fs := HeadBehind(data, n);
    var p := ParsedHeaders(data[..n]).value;
    HeadIsRead(data[..n], line, fs, p);
    StatusIsKept(data, p, n + 4, eof);
    h := Head(line, fs, p.http10, p.contentLength);
    HeadFits(data, n);
    assert StartsWith(data, n, BLANK_LINE) by { EndIsBlank(data, n); }
    assert data[0..n + 4] == data[..n] + data[n..n + 4];
  }

  lemma EndIsBlank(data: string, n: nat)
    requires EndsAt(data, n)
    ensures StartsWith(data, n, BLANK_LINE)
  {}

  lemma StatusIsKept(data: string, h: Headers, start: nat, eof: bool)
    requires start <= |data| && WithBody(data, h, start, eof).Complete?
    ensures WithBody(data, h, start, eof).response.status == h.status
  {
    hide Chunked;
  }

  /** At the end of the stream the parser decides; only a body that runs to the end is decided differently. */
  lemma EndOfStreamDecides(data: string)
    ensures !ParsedHttp(data, true).NeedMore?
    ensures !ParsedHttp(data, false).NeedMore? ==> ParsedHttp(data, true) == ParsedHttp(data, false)
  {
    hide Search, ParsedHeaders, Chunked;
  }

  // ---- the four kinds of body, written out

  function Wire(h: Head, tail: string): string { HeadText(h) + "\r\n\r\n" + tail }

  lemma WireStarts(h: Head, tail: string)
    ensures StartsWith(Wire(h, tail), 0, HeadText(h) + "\r\n\r\n")
    ensures |Wire(h, tail)| == |HeadText(h)| + 4 + |tail| && Wire(h, tail)[|HeadText(h)| + 4..] == tail
  {
    hide HeadText;
    var head := HeadText(h) + "\r\n\r\n";
    assert Wire(h, tail)[0..|head|] == head;
  }

  /** With a Content-Length, exactly so many bytes are the body, whatever follows. */
  lemma LengthBodyIsReturned(h: Head, status: int, body: string, rest: string)
    requires GoodHead(h, status) && !SaysChunked(h.fields) && h.length == Some(|body|) && |body| <= 16777216
    ensures ParsedHttp(Wire(h, body + rest), false)
         == Complete(HttpResponse(status, KeepsAlive(h), body), |HeadText(h)| + 4 + |body|)
  {
    hide GoodHead, HeadText, StartsWith, ParsedHttp, Wire;
    var data, r, start := Wire(h, body + rest), HttpResponse(status, KeepsAlive(h), body), |HeadText(h)| + 4;
    WireStarts(h, body + rest);
    assert data[start..start + |body|] == data[start..][..|body|] == body;
    assert IsResponse(data, false, h, r, start + |body|);
    ParserMatchesGrammar(data, false, r, start + |body|);
  }

  /** Chunks are joined, and the response ends behind the empty line. */
  lemma ChunkedBodyIsReturned(h: Head, status: int, text: string, body: string, rest: string)
    requires GoodHead(h, status) && SaysChunked(h.fields) && IsChunked(text, body)
    ensures ParsedHttp(Wire(h, text + rest), false)
         == Complete(HttpResponse(status, KeepsAlive(h), body), |HeadText(h)| + 4 + |text|)
  {
    hide GoodHead, HeadText, StartsWith, ParsedHttp, Wire, IsChunked;
    var data, r, start := Wire(h, text + rest), HttpResponse(status, KeepsAlive(h), body), |HeadText(h)| + 4;
    WireStarts(h, text + rest);
    assert data[start..start + |text|] == data[start..][..|text|] == text;
    assert IsResponse(data, false, h, r, start + |text|);
    ParserMatchesGrammar(data, false, r, start + |text|);
  }

  /** Without either, informational responses, 204 and 304 have no body, and any other runs to the end of the
      connection, which cannot be used again. */
  lemma OtherBodiesAreReturned(h: Head, status: int, rest: string)
    requires GoodHead(h, status) && !SaysChunked(h.fields) && h.length.None?
    ensures status < 200 || status == 204 || status == 304 ==>
      ParsedHttp(Wire(h, rest), false) == Complete(HttpResponse(status, KeepsAlive(h), ""), |HeadText(h)| + 4)
    ensures status >= 200 && status != 204 && status != 304 && |rest| <= 16777216 ==>
      ParsedHttp(Wire(h, rest), true) == Complete(HttpResponse(status, false, rest), |Wire(h, rest)|)
  {
    hide GoodHead, HeadText, StartsWith, ParsedHttp, Wire;
    var data, start := Wire(h, rest), |HeadText(h)| + 4;
    WireStarts(h, rest);
    if status < 200 || status == 204 || status == 304 {
      var r := HttpResponse(status, KeepsAlive(h), "");
      assert IsResponse(data, false, h, r, start);
      ParserMatchesGrammar(data, false, r, start);
    } else if |rest| <= 16777216 {
      var r := HttpResponse(status, false, rest);
      assert IsResponse(data, true, h, r, |data|);
      ParserMatchesGrammar(data, true, r, |data|);
    }
  }
}
