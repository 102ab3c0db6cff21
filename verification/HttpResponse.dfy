/** The HTTP/1.1 response parser, which is called again on everything received so far. */
module HttpResponses {
  import opened Text

  const CRLF := "\r\n"
  const MAX_HEADER := 64 * 1024
  const MAX_BODY := 16 * 1024 * 1024
  const MAX_CHUNK_LINE := 1024

  datatype HttpResponse = HttpResponse(status: int, keepAlive: bool, body: string)

  /** A response with the bytes it took, a wish for more bytes, or an error. */
  datatype HttpResult = Complete(response: HttpResponse, consumed: nat) | NeedMore | Failed

  // ---- searching

  /** First position from `pos` on where `word` stands. */
  function Search(s: string, word: string, pos: nat): (r: Option<nat>)
    ensures r.Some? ==> pos <= r.value && StartsWith(s, r.value, word)
    ensures r.Some? ==> forall p :: pos <= p < r.value ==> !StartsWith(s, p, word)
    ensures r.None? ==> forall p :: pos <= p ==> !StartsWith(s, p, word)
    decreases |s| - pos
  {
    if pos + |word| > |s| then None
    else if StartsWith(s, pos, word) then Some(pos)
    else Search(s, word, pos + 1)
  }

  lemma SearchIs(s: string, word: string, pos: nat, at: nat)
    requires pos <= at && StartsWith(s, at, word) && forall p :: pos <= p < at ==> !StartsWith(s, p, word)
    ensures Search(s, word, pos) == Some(at)
  {}

  lemma StartsWithExtends(s: string, t: string, p: nat, word: string)
    requires p + |word| <= |s|
    ensures StartsWith(s + t, p, word) <==> StartsWith(s, p, word)
  {
    assert (s + t)[p..p + |word|] == s[p..p + |word|];
  }

  /** A match found in a prefix stays the first match. */
  lemma SearchIsStable(s: string, t: string, word: string, pos: nat)
    requires Search(s, word, pos).Some?
    ensures Search(s + t, word, pos) == Search(s, word, pos)
  {
    var at := Search(s, word, pos).value;
    StartsWithExtends(s, t, at, word);
    forall p | pos <= p < at ensures !StartsWith(s + t, p, word) { StartsWithExtends(s, t, p, word); }
    SearchIs(s + t, word, pos, at);
  }

  /** A match of the whole is a match of the prefix exactly if it fits there. */
  lemma SearchInPrefix(s: string, k: nat, word: string, pos: nat)
    requires k <= |s| && Search(s, word, pos).Some?
    ensures var at := Search(s, word, pos).value;
      Search(s[..k], word, pos) == if at + |word| <= k then Some(at) else None
  {
    var at := Search(s, word, pos).value;
    assert s[..k] + s[k..] == s;
    if Search(s[..k], word, pos).Some? { SearchIsStable(s[..k], s[k..], word, pos); }
    if at + |word| <= k { StartsWithExtends(s[..k], s[k..], at, word); }
  }

  // ---- header text

  function LowerChar(c: char): char { if 'A' <= c <= 'Z' then (c as int + 32) as char else c }

  function Lower(t: string): string { seq(|t|, i requires 0 <= i < |t| => LowerChar(t[i])) }

  predicate IEquals(a: string, b: string) { Lower(a) == Lower(b) }

  predicate IContains(haystack: string, needle: string) { Search(Lower(haystack), Lower(needle), 0).Some? }

  predicate IsBlank(c: char) { c == ' ' || c == '\t' }

  function TrimFront(t: string): string { if t != [] && IsBlank(t[0]) then TrimFront(t[1..]) else t }

  function TrimBack(t: string): string { if t != [] && IsBlank(t[|t| - 1]) then TrimBack(t[..|t| - 1]) else t }

  function Trim(t: string): string { TrimBack(TrimFront(t)) }

  /** Spaces and tabs only. */
  predicate Blanks(t: string) { forall i :: 0 <= i < |t| ==> t[i] == ' ' || t[i] == '\t' }

  /** No space or tab at either end. */
  predicate Trimmed(t: string) {
    t != [] ==> t[0] != ' ' && t[0] != '\t' && t[|t| - 1] != ' ' && t[|t| - 1] != '\t'
  }

  lemma {:induction false} FrontIsTrimmed(lead: string, rest: string)
    requires Blanks(lead) && (rest == [] || (rest[0] != ' ' && rest[0] != '\t'))
    ensures TrimFront(lead + rest) == rest
  {
    var t := lead + rest;
    if lead != [] {
      FrontIsTrimmed(lead[1..], rest);
      assert IsBlank(t[0]) && t[1..] == lead[1..] + rest;
    } else {
      assert t == rest;
    }
  }

  lemma {:induction false} BackIsTrimmed(rest: string, trail: string)
    requires Blanks(trail) && (rest == [] || (rest[|rest| - 1] != ' ' && rest[|rest| - 1] != '\t'))
    ensures TrimBack(rest + trail) == rest
    decreases |trail|
  {
    if trail == [] {
      assert rest + trail == rest;
    } else {
      var n := |trail| - 1;
      BackIsTrimmed(rest, trail[..n]);
      OneBlankLess(rest + trail[..n], trail[n]);
      assert rest + trail == rest + trail[..n] + [trail[n]];
    }
  }

  lemma OneBlankLess(t: string, c: char)
    requires c == ' ' || c == '\t'
    ensures TrimBack(t + [c]) == TrimBack(t)
  {
    assert (t + [c])[..|t|] == t;
  }

  /** Exactly the blanks around a text are cut off. */
  lemma TrimIs(lead: string, t: string, trail: string)
    requires Blanks(lead) && Blanks(trail) && Trimmed(t) && (t == [] ==> trail == [])
    ensures Trim(lead + t + trail) == t
  {
    assert lead + t + trail == lead + (t + trail);
    FrontIsTrimmed(lead, t + trail);
    BackIsTrimmed(t, trail);
  }

  lemma {:induction false} FrontIsCut(t: string) returns (lead: string)
    ensures Blanks(lead) && t == lead + TrimFront(t)
    ensures var r := TrimFront(t); r == [] || (r[0] != ' ' && r[0] != '\t')
    decreases |t|
  {
    if t != [] && IsBlank(t[0]) {
      var more := FrontIsCut(t[1..]);
      lead := [t[0]] + more;
      assert t == [t[0]] + t[1..];
    } else {
      lead := "";
    }
  }

  lemma {:induction false} BackIsCut(t: string) returns (trail: string)
    ensures Blanks(trail) && t == TrimBack(t) + trail
    ensures var r := TrimBack(t); r == [] || (r[|r| - 1] != ' ' && r[|r| - 1] != '\t')
    decreases |t|
  {
    if t != [] && IsBlank(t[|t| - 1]) {
      var n := |t| - 1;
      var more := BackIsCut(t[..n]);
      trail := more + [t[n]];
      assert t == t[..n] + [t[n]];
    } else {
      trail := "";
    }
  }

  lemma TrimCuts(t: string) returns (lead: string, trail: string)
    ensures Blanks(lead) && Blanks(trail) && Trimmed(Trim(t)) && t == lead + Trim(t) + trail
    ensures Trim(t) == [] ==> trail == []
  {
    lead := FrontIsCut(t);
    var rest := TrimFront(t);
    trail := BackIsCut(rest);
    assert Trim(t) == [] ==> rest == trail;
  }

  datatype Headers = Headers(status: int, http10: bool, contentLength: Option<nat>, chunked: bool, keepAlive: Option<bool>)

  /** `std::from_chars` stops at the first non-digit, but with fewer than three digits the number is
      below 100 and refused anyway. */
  function StatusLine(line: string): Option<Headers> {
    if |line| < 12 || !StartsWith(line, 0, "HTTP/1.") || line[8] != ' ' then None
    else
      match FromChars(line[9..12], 10, 599)
      case None => None
      case Some(status) => if status < 100 then None else Some(Headers(status, line[7] == '0', None, false, None))
  }

  datatype HeaderField = HeaderField(name: string, value: string)

  function FieldOf(line: string): Option<HeaderField> {
    match Search(line, ":", 0)
    case None => None
    case Some(colon) => if colon == 0 then None else Some(HeaderField(line[..colon], Trim(line[colon + 1..])))
  }

  /** One header line. Content-Length values that differ are refused. */
  function TakeLine(h: Headers, line: string): Option<Headers> {
    match FieldOf(line)
    case None => None
    case Some(HeaderField(name, value)) =>
      if IEquals(name, "content-length") then
        match FromChars(value, 10, U64_MAX)
        case None => None
        case Some(n) => if h.contentLength.Some? && h.contentLength.value != n then None else Some(h.(contentLength := Some(n)))
      else if IEquals(name, "transfer-encoding") then Some(h.(chunked := IContains(value, "chunked")))
      else if IEquals(name, "connection") then
        Some(if IContains(value, "close") then h.(keepAlive := Some(false))
             else if IContains(value, "keep-alive") then h.(keepAlive := Some(true))
             else h)
      else Some(h)
  }

  /** Where the line at `pos` ends: at the next CRLF, or with the text. */
  function LineEnd(head: string, pos: nat): (r: nat)
    requires pos <= |head|
    ensures pos <= r <= |head|
  {
    var crlf := Search(head, CRLF, pos);
    if crlf.Some? then crlf.value else |head|
  }

  function Lines(head: string, pos: nat): seq<string>
    decreases |head| - pos
  {
    if pos >= |head| then [] else [head[pos..LineEnd(head, pos)]] + Lines(head, LineEnd(head, pos) + 2)
  }

  function TakeLines(h: Headers, lines: seq<string>): Option<Headers>
    decreases lines
  {
    if lines == [] then Some(h)
    else
      match TakeLine(h, lines[0])
      case None => None
      case Some(h') => TakeLines(h', lines[1..])
  }

  function ParsedHeaders(head: string): Option<Headers> {
    match StatusLine(head[..LineEnd(head, 0)])
    case None => None
    case Some(h) => TakeLines(h, Lines(head, LineEnd(head, 0) + 2))
  }

  /** One round of the line loop, with the next round left folded. */
  lemma LineStep(h: Headers, head: string, pos: nat)
    requires pos < |head|
    ensures TakeLines(h, Lines(head, pos)) == match TakeLine(h, head[pos..LineEnd(head, pos)])
      case None => None
      case Some(h') => TakeLines(h', Lines(head, LineEnd(head, pos) + 2))
  {
    hide TakeLine, LineEnd;
    assert Lines(head, pos)[1..] == Lines(head, LineEnd(head, pos) + 2);
  }

  method ParseHeaders(head: string) returns (r: Option<Headers>)
    ensures r == ParsedHeaders(head)
  {
    hide StatusLine, TakeLine, TakeLines, Lines, LineEnd;
    var lineEnd := LineEnd(head, 0);
    r := StatusLine(head[..lineEnd]);
    if r.None? { return; }
    var h := r.value;
    var pos := lineEnd + 2;
    while pos < |head|
      invariant ParsedHeaders(head) == TakeLines(h, Lines(head, pos))
      decreases |head| - pos
    {
      LineStep(h, head, pos);
      var end := LineEnd(head, pos);
      var taken := TakeLine(h, head[pos..end]);
      if taken.None? { return None; }
      h, pos := taken.value, end + 2;
    }
    NoLinesLeft(h, head, pos);
    return Some(h);
  }

  lemma NoLinesLeft(h: Headers, head: string, pos: nat)
    requires pos >= |head|
    ensures TakeLines(h, Lines(head, pos)) == Some(h)
  {}

  predicate IsContentLength(line: string) { FieldOf(line).Some? && IEquals(FieldOf(line).value.name, "content-length") }

  /** Accepted headers have one content length: every Content-Length line says the same. */
  lemma {:induction false} ContentLengthsAgree(h: Headers, lines: seq<string>, i: nat)
    requires i < |lines| && TakeLines(h, lines).Some?
    ensures FieldOf(lines[i]).Some?
    ensures IsContentLength(lines[i])
        ==> TakeLines(h, lines).value.contentLength == FromChars(FieldOf(lines[i]).value.value, 10, U64_MAX)
    decreases lines
  {
    hide FieldOf, IEquals, IContains, FromChars;
    var h' := TakeLine(h, lines[0]).value;
    if i > 0 {
      ContentLengthsAgree(h', lines[1..], i - 1);
    } else if IsContentLength(lines[0]) {
      ContentLengthStays(h', lines[1..]);
    }
  }

  lemma {:induction false} ContentLengthStays(h: Headers, lines: seq<string>)
    requires TakeLines(h, lines).Some? && h.contentLength.Some?
    ensures TakeLines(h, lines).value.contentLength == h.contentLength
    decreases lines
  {
    hide FieldOf, IEquals, IContains, FromChars;
    if lines != [] { ContentLengthStays(TakeLine(h, lines[0]).value, lines[1..]); }
  }

  // ---- chunked bodies, section 7.1 of RFC 9112

  datatype Chunking = Done(end: nat, body: string) | Starved | Broken

  /** The size on a chunk line: extensions cut off, blanks trimmed, hexadecimal. */
  function ChunkSize(line: string): Option<nat> {
    var semicolon := Search(line, ";", 0);
    FromChars(Trim(if semicolon.Some? then line[..semicolon.value] else line), 16, U64_MAX)
  }

  /** The index just past the empty line that ends the trailer section. */
  function TrailerEnd(data: string, pos: nat): (r: Option<nat>)
    requires pos <= |data|
    ensures r.Some? ==> pos + 2 <= r.value <= |data|
    decreases |data| - pos
  {
    match Search(data, CRLF, pos)
    case None => None
    case Some(end) => if end == pos then Some(pos + 2) else TrailerEnd(data, end + 2)
  }

  /** The chunk-size line at `pos`: where its data starts and how long it is. */
  datatype ChunkLine = ChunkLine(start: nat, size: nat) | NoLine | BadLine

  function ChunkAt(data: string, pos: nat): (r: ChunkLine)
    requires pos <= |data|
    ensures r.ChunkLine? ==> pos + 2 <= r.start <= |data|
  {
    match Search(data, CRLF, pos)
    case None => NoLine
    case Some(lineEnd) =>
      match ChunkSize(data[pos..lineEnd])
      case None => BadLine
      case Some(size) => ChunkLine(lineEnd + 2, size)
  }

  function Chunked(data: string, pos: nat, body: string): (r: Chunking)
    requires pos <= |data|
    ensures r.Done? ==> pos < r.end <= |data|
    decreases |data| - pos
  {
    match ChunkAt(data, pos)
    case NoLine => if |data| - pos > MAX_CHUNK_LINE then Broken else Starved
    case BadLine => Broken
    case ChunkLine(start, size) =>
      if size == 0 then
        var end := TrailerEnd(data, start);
        if end.Some? then Done(end.value, body) else Starved
      else if |body| + size > MAX_BODY then Broken
      else if |data| - start < size + 2 then Starved
      else if data[start + size..start + size + 2] != CRLF then Broken
      else Chunked(data, start + size + 2, body + data[start..start + size])
  }

  /** One round of the chunk loop, with the next round left folded. */
  lemma ChunkStep(data: string, pos: nat, body: string)
    requires pos <= |data|
    ensures Chunked(data, pos, body) == match ChunkAt(data, pos)
      case NoLine => if |data| - pos > MAX_CHUNK_LINE then Broken else Starved
      case BadLine => Broken
      case ChunkLine(start, size) =>
        var next := start + size + 2;
        if size == 0 then
          if TrailerEnd(data, start).Some? then Done(TrailerEnd(data, start).value, body) else Starved
        else if |body| + size > MAX_BODY then Broken
        else if |data| < next then Starved
        else if data[start + size..next] != CRLF then Broken
        else Chunked(data, next, body + data[start..start + size])
  {
    hide ChunkAt, TrailerEnd;
  }

  method DecodeChunked(data: string, start: nat) returns (r: Chunking)
    requires start <= |data|
    ensures r == Chunked(data, start, "")
  {
    hide ChunkSize, Search, Chunked, TrailerEnd;
    var pos, body := start, "";
    while true
      invariant pos <= |data| && Chunked(data, start, "") == Chunked(data, pos, body)
      decreases |data| - pos
    {
      ChunkStep(data, pos, body);
      var lineEnd := Search(data, CRLF, pos);
      if lineEnd.None? { return if |data| - pos > MAX_CHUNK_LINE then Broken else Starved; }
      var size := ChunkSize(data[pos..lineEnd.value]);
      if size.None? { return Broken; }
      pos := lineEnd.value + 2;
      if size.value == 0 {
        var end := SkipTrailers(data, pos);
        return if end.Some? then Done(end.value, body) else Starved;
      }
      if |body| + size.value > MAX_BODY { return Broken; }
      if |data| - pos < size.value + 2 { return Starved; }
      if data[pos + size.value..pos + size.value + 2] != CRLF { return Broken; }
      body := body + data[pos..pos + size.value];
      pos := pos + size.value + 2;
    }
  }

  method SkipTrailers(data: string, start: nat) returns (r: Option<nat>)
    requires start <= |data|
    ensures r == TrailerEnd(data, start)
  {
    hide Search;
    var pos := start;
    while true
      invariant pos <= |data| && TrailerEnd(data, start) == TrailerEnd(data, pos)
      decreases |data| - pos
    {
      var end := Search(data, CRLF, pos);
      if end.None? { return None; }
      if end.value == pos { return Some(pos + 2); }
      pos := end.value + 2;
    }
  }

  // ---- a whole response

  /** The body after accepted headers, in the order the source tests: chunked, Content-Length, bodyless
      status, close-delimited. */
  function WithBody(data: string, h: Headers, start: nat, eof: bool): (r: HttpResult)
    requires start <= |data|
    ensures r.Complete? ==> start <= r.consumed <= |data|
  {
    var keepAlive := if h.keepAlive.Some? then h.keepAlive.value else !h.http10;
    if h.chunked then
      match Chunked(data, start, "")
      case Done(end, body) => Complete(HttpResponse(h.status, keepAlive, body), end)
      case Starved => if eof then Failed else NeedMore
      case Broken => Failed
    else if h.contentLength.Some? then
      var n := h.contentLength.value;
      if n > MAX_BODY then Failed
      else if |data| - start < n then if eof then Failed else NeedMore
      else Complete(HttpResponse(h.status, keepAlive, data[start..start + n]), start + n)
    else if h.status < 200 || h.status == 204 || h.status == 304 then
      Complete(HttpResponse(h.status, keepAlive, ""), start)
    else if !eof then NeedMore
    else if |data| - start > MAX_BODY then Failed
    else Complete(HttpResponse(h.status, false, data[start..]), |data|)
  }

  const BLANK_LINE := "\r\n\r\n"

  function ParsedHttp(data: string, eof: bool): (r: HttpResult)
    ensures r.Complete? ==> r.consumed <= |data|
  {
    match Search(data, BLANK_LINE, 0)
    case None => if |data| > MAX_HEADER || eof then Failed else NeedMore
    case Some(headerEnd) =>
      if headerEnd > MAX_HEADER then Failed
      else
        match ParsedHeaders(data[..headerEnd])
        case None => Failed
        case Some(h) => WithBody(data, h, headerEnd + 4, eof)
  }

  method ParseHttpResponse(data: string, eof: bool) returns (r: HttpResult)
    ensures r == ParsedHttp(data, eof)
  {
    hide Search, Chunked, ParsedHeaders;
    var headerEnd := Search(data, BLANK_LINE, 0);
    if headerEnd.None? {
      if |data| > MAX_HEADER { return Failed; }
      return if eof then Failed else NeedMore;
    }
    if headerEnd.value > MAX_HEADER { return Failed; }
    var headers := ParseHeaders(data[..headerEnd.value]);
    if headers.None? { return Failed; }
    var h, start := headers.value, headerEnd.value + 4;
    var keepAlive := if h.keepAlive.Some? then h.keepAlive.value else !h.http10;
    if h.chunked {
      var chunks := DecodeChunked(data, start);
      if chunks.Broken? { return Failed; }
      if chunks.Starved? { return if eof then Failed else NeedMore; }
      return Complete(HttpResponse(h.status, keepAlive, chunks.body), chunks.end);
    }
    if h.contentLength.Some? {
      var n := h.contentLength.value;
      if n > MAX_BODY { return Failed; }
      if |data| - start < n { return if eof then Failed else NeedMore; }
      return Complete(HttpResponse(h.status, keepAlive, data[start..start + n]), start + n);
    }
    if h.status < 200 || h.status == 204 || h.status == 304 {
      return Complete(HttpResponse(h.status, keepAlive, ""), start);
    }
    if !eof { return NeedMore; }
    if |data| - start > MAX_BODY { return Failed; }
    return Complete(HttpResponse(h.status, false, data[start..]), |data|);
  }
}
