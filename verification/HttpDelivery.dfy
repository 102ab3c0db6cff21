/** The response parser under incremental delivery, and chunked bodies read back. */
module HttpDelivery {
  import opened Text
  import opened HttpResponses

  // ---- a complete response does not change when more bytes arrive

  lemma {:induction false} TrailerEndIsStable(s: string, t: string, pos: nat)
    requires pos <= |s| && TrailerEnd(s, pos).Some?
    ensures TrailerEnd(s + t, pos) == TrailerEnd(s, pos)
    decreases |s| - pos
  {
    hide Search;
    SearchIsStable(s, t, CRLF, pos);
    var end := Search(s, CRLF, pos).value;
    if end != pos { TrailerEndIsStable(s, t, end + 2); }
  }

  lemma {:induction false} ChunkedIsStable(s: string, t: string, pos: nat, body: string)
    requires pos <= |s| && Chunked(s, pos, body).Done?
    ensures Chunked(s + t, pos, body) == Chunked(s, pos, body)
    decreases |s| - pos
  {
    hide ChunkAt, TrailerEnd;
    ChunkLineIsStable(s, t, pos);
    var line := ChunkAt(s, pos);
    if line.size == 0 {
      TrailerEndIsStable(s, t, line.start);
    } else {
      var end := line.start + line.size;
      SliceOfConcat(s, t, line.start, end);
      SliceOfConcat(s, t, end, end + 2);
      ChunkedIsStable(s, t, end + 2, body + s[line.start..end]);
    }
  }

  lemma ChunkLineIsStable(s: string, t: string, pos: nat)
    requires pos <= |s| && !ChunkAt(s, pos).NoLine?
    ensures ChunkAt(s + t, pos) == ChunkAt(s, pos)
  {
    hide Search, ChunkSize;
    SearchIsStable(s, t, CRLF, pos);
    SliceOfConcat(s, t, pos, Search(s, CRLF, pos).value);
  }

  /** Once a prefix yields a complete response, every extension yields the same response and byte count. */
  lemma CompleteIsStable(s: string, t: string)
    requires ParsedHttp(s, false).Complete?
    ensures ParsedHttp(s + t, false) == ParsedHttp(s, false)
  {
    hide Search, ParsedHeaders, Chunked;
    SearchIsStable(s, t, BLANK_LINE, 0);
    var end := Search(s, BLANK_LINE, 0).value;
    assert (s + t)[..end] == s[..end];
    var h := ParsedHeaders(s[..end]).value;
    if h.chunked {
      ChunkedIsStable(s, t, end + 4, "");
    } else if h.contentLength.Some? {
      var n := h.contentLength.value;
      assert (s + t)[end + 4..end + 4 + n] == s[end + 4..end + 4 + n];
    }
  }

  // ---- shorter prefixes ask for more, exactly if the two length guards cannot fire early

  /** Every chunk-size line is under the limit. */
  predicate ShortChunkLines(data: string, pos: nat)
    requires pos <= |data|
    decreases |data| - pos
  {
    match ChunkAt(data, pos)
    case ChunkLine(start, size) =>
      && start - 2 - pos < 1024
      && (size == 0 || |data| - start < size + 2 || ShortChunkLines(data, start + size + 2))
    case _ => true
  }

  /** The header ends early enough, and so does each chunk-size line. */
  predicate Steady(data: string) {
    match Search(data, BLANK_LINE, 0)
    case None => true
    case Some(end) =>
      && end <= 65533
      && match ParsedHeaders(data[..end])
         case None => true
         case Some(h) => h.chunked ==> ShortChunkLines(data, end + 4)
  }

  lemma {:induction false} TrailerPrefix(s: string, pos: nat, k: nat)
    requires pos <= k <= |s| && TrailerEnd(s, pos).Some? && k < TrailerEnd(s, pos).value
    ensures TrailerEnd(s[..k], pos).None?
    decreases |s| - pos
  {
    hide Search;
    SearchInPrefix(s, k, CRLF, pos);
    var end := Search(s, CRLF, pos).value;
    if end != pos && end + 2 <= k { TrailerPrefix(s, end + 2, k); }
  }

  lemma {:induction false} ChunkedPrefix(s: string, pos: nat, body: string, k: nat)
    requires pos <= k <= |s| && Chunked(s, pos, body).Done? && k < Chunked(s, pos, body).end
    requires ShortChunkLines(s, pos)
    ensures Chunked(s[..k], pos, body) == Starved
    decreases |s| - pos
  {
    hide ChunkAt, TrailerEnd;
    ChunkLineInPrefix(s, k, pos);
    var line := ChunkAt(s, pos);
    if line.start <= k {
      if line.size == 0 {
        TrailerPrefix(s, line.start, k);
      } else {
        var end := line.start + line.size;
        if end + 2 <= k {
          SliceOfSlice(s, 0, k, line.start, end);
          SliceOfSlice(s, 0, k, end, end + 2);
          ChunkedPrefix(s, end + 2, body + s[line.start..end], k);
        }
      }
    }
  }

  lemma ChunkLineInPrefix(s: string, k: nat, pos: nat)
    requires pos <= k <= |s| && ChunkAt(s, pos).ChunkLine?
    ensures ChunkAt(s[..k], pos) == if ChunkAt(s, pos).start <= k then ChunkAt(s, pos) else NoLine
  {
    hide Search, ChunkSize;
    SearchInPrefix(s, k, CRLF, pos);
    var lineEnd := Search(s, CRLF, pos).value;
    if lineEnd + 2 <= k { SliceOfSlice(s, 0, k, pos, lineEnd); }
  }

  /** A chunk-size line at or over the limit makes some shorter prefix fail. */
  lemma {:induction false} LongChunkLineFails(s: string, pos: nat, body: string) returns (k: nat)
    requires pos <= |s| && Chunked(s, pos, body).Done? && !ShortChunkLines(s, pos)
    ensures pos <= k < Chunked(s, pos, body).end && Chunked(s[..k], pos, body) == Broken
    decreases |s| - pos
  {
    hide ChunkAt, TrailerEnd;
    var line := ChunkAt(s, pos);
    if line.start - 2 - pos >= MAX_CHUNK_LINE {
      k := line.start - 1;
      ChunkLineInPrefix(s, k, pos);
    } else {
      var end := line.start + line.size;
      k := LongChunkLineFails(s, end + 2, body + s[line.start..end]);
      ChunkLineInPrefix(s, k, pos);
      SliceOfSlice(s, 0, k, line.start, end);
      SliceOfSlice(s, 0, k, end, end + 2);
    }
  }

  /** The response parser waits at every shorter prefix. */
  ghost predicate WaitsUntilComplete(s: string) {
    ParsedHttp(s, false).Complete? && forall k :: 0 <= k < ParsedHttp(s, false).consumed ==> ParsedHttp(s[..k], false) == NeedMore
  }

  lemma SteadyPrefix(s: string, k: nat)
    requires ParsedHttp(s, false).Complete? && k < ParsedHttp(s, false).consumed && Steady(s)
    ensures ParsedHttp(s[..k], false) == NeedMore
  {
    hide Search, ParsedHeaders, Chunked, ShortChunkLines;
    SearchInPrefix(s, k, BLANK_LINE, 0);
    var end := Search(s, BLANK_LINE, 0).value;
    if end + 4 <= k {
      SliceOfSlice(s, 0, k, 0, end);
      assert s[..k][..end] == s[..end];
      if ParsedHeaders(s[..end]).value.chunked { ChunkedPrefix(s, end + 4, "", k); }
    }
  }

  lemma UnsteadyPrefix(s: string) returns (k: nat)
    requires ParsedHttp(s, false).Complete? && !Steady(s)
    ensures k < ParsedHttp(s, false).consumed && ParsedHttp(s[..k], false) == Failed
  {
    hide Search, ParsedHeaders, Chunked, ShortChunkLines;
    var end := Search(s, BLANK_LINE, 0).value;
    if end > MAX_HEADER - 3 {
      k := end + 3;
      SearchInPrefix(s, k, BLANK_LINE, 0);
    } else {
      k := LongChunkLineFails(s, end + 4, "");
      SearchInPrefix(s, k, BLANK_LINE, 0);
      SliceOfSlice(s, 0, k, 0, end);
      assert s[..k][..end] == s[..end];
    }
  }

  /** For a complete response, every shorter prefix asks for more exactly if the response is steady. */
  lemma WaitsExactlyIfSteady(s: string)
    requires ParsedHttp(s, false).Complete?
    ensures WaitsUntilComplete(s) <==> Steady(s)
  {
    if Steady(s) {
      forall k | 0 <= k < ParsedHttp(s, false).consumed ensures ParsedHttp(s[..k], false) == NeedMore {
        SteadyPrefix(s, k);
      }
    } else {
      var k := UnsteadyPrefix(s);
    }
  }

  // ---- chunked bodies read back

  /** A chunk on the wire: its size in any hexadecimal spelling, an extension or nothing, and its data. */
  datatype Chunk = Chunk(size: string, extension: string, data: string)

  ghost predicate NoLineBreak(t: string) { forall i :: 0 <= i < |t| - 1 ==> !(t[i] == '\r' && t[i + 1] == '\n') }

  /** A hexadecimal number with blanks around it. */
  ghost predicate IsSize(size: string, digits: string, n: nat) {
    && digits != [] && Numeral(digits, 16) && Value(digits, 16) == n
    && exists lead, trail :: Padded(size, lead, digits, trail)
  }

  predicate Padded(t: string, lead: string, middle: string, trail: string) {
    t == lead + middle + trail && Blanks(lead) && Blanks(trail)
  }

  ghost predicate IsSizeLine(size: string, extension: string, n: nat) {
    (exists digits :: IsSize(size, digits, n)) && (extension == [] || extension[0] == ';') && NoLineBreak(extension)
  }

  ghost predicate WellFormedChunk(c: Chunk) { c.data != [] && IsSizeLine(c.size, c.extension, |c.data|) }

  function EncodeChunks(cs: seq<Chunk>): string {
    if cs == [] then [] else cs[0].size + cs[0].extension + CRLF + cs[0].data + CRLF + EncodeChunks(cs[1..])
  }

  function Bodies(cs: seq<Chunk>): string { if cs == [] then [] else cs[0].data + Bodies(cs[1..]) }

  function EncodeTrailers(lines: seq<string>): string {
    if lines == [] then CRLF else lines[0] + CRLF + EncodeTrailers(lines[1..])
  }

  lemma TwoCharacters(s: string, p: nat, word: string)
    requires |word| == 2
    ensures StartsWith(s, p, word) <==> p + 1 < |s| && s[p] == word[0] && s[p + 1] == word[1]
  {
    if p + 1 < |s| { assert s[p..p + 2] == [s[p], s[p + 1]]; }
  }

  /** A line without a break in it ends at the break that follows. */
  lemma LineIsFound(s: string, p: nat, line: string)
    requires StartsWith(s, p, line + CRLF) && NoLineBreak(line)
    ensures p + |line| + 2 <= |s| && Search(s, CRLF, p) == Some(p + |line|) && s[p..p + |line|] == line
  {
    HasParts(s, p, line, CRLF);
    var end := p + |line|;
    forall q | p <= q < end ensures !StartsWith(s, q, CRLF) {
      TwoCharacters(s, q, CRLF);
      assert s[q] == s[p..end][q - p];
      if q + 1 < end { assert s[q + 1] == s[p..end][q + 1 - p]; } else { HeadAt(s, end, CRLF); }
    }
    hide Search;
    SearchIs(s, CRLF, p, end);
  }

  lemma SizeIsRead(size: string, digits: string, n: nat)
    requires IsSize(size, digits, n)
    ensures Trim(size) == digits
    ensures forall i :: 0 <= i < |size| ==> size[i] != '\r' && size[i] != ';'
  {
    var lead, trail :| Padded(size, lead, digits, trail);
    assert forall i :: 0 <= i < |digits| ==> DigitOf(digits[i]) < 16;
    TrimIs(lead, digits, trail);
    forall i | 0 <= i < |size| ensures size[i] != '\r' && size[i] != ';' {
      var j := i - |lead|;
      assert size[i] == if j < 0 then lead[i] else if j < |digits| then digits[j] else trail[j - |digits|];
    }
  }

  lemma SizeLineHasNoBreak(size: string, extension: string, n: nat)
    requires IsSizeLine(size, extension, n)
    ensures NoLineBreak(size + extension)
  {
    var digits :| IsSize(size, digits, n);
    SizeIsRead(size, digits, n);
    var line := size + extension;
    forall i | 0 <= i < |line| - 1 ensures !(line[i] == '\r' && line[i + 1] == '\n') {
      if i < |size| { assert line[i] == size[i]; }
      else { assert line[i] == extension[i - |size|] && line[i + 1] == extension[i + 1 - |size|]; }
    }
  }

  lemma OneCharacter(s: string, p: nat, c: char)
    ensures StartsWith(s, p, [c]) <==> p < |s| && s[p] == c
  {
    if p < |s| { assert s[p..p + 1] == [s[p]]; }
  }

  lemma ChunkSizeReadsBack(size: string, extension: string, n: nat)
    requires IsSizeLine(size, extension, n) && n <= U64_MAX
    ensures ChunkSize(size + extension) == Some(n)
  {
    var line := size + extension;
    var digits :| IsSize(size, digits, n);
    SizeIsRead(size, digits, n);
    forall p | 0 <= p < |size| ensures !StartsWith(line, p, ";") {
      OneCharacter(line, p, ';');
      assert line[p] == size[p];
    }
    if extension != [] {
      OneCharacter(line, |size|, ';');
      SearchIs(line, ";", 0, |size|);
      assert line[..|size|] == size;
    } else {
      assert line == size;
    }
  }

  lemma {:induction false} TrailersReadBack(s: string, p: nat, lines: seq<string>)
    requires StartsWith(s, p, EncodeTrailers(lines))
    requires forall i :: 0 <= i < |lines| ==> lines[i] != [] && NoLineBreak(lines[i])
    ensures p <= |s| && TrailerEnd(s, p) == Some(p + |EncodeTrailers(lines)|)
    decreases lines
  {
    hide Search, NoLineBreak;
    if lines == [] {
      assert CRLF == "" + CRLF;
      EmptyHasNoBreak();
      LineIsFound(s, p, "");
    } else {
      var head, rest := lines[0] + CRLF, EncodeTrailers(lines[1..]);
      assert EncodeTrailers(lines) == head + rest;
      HasParts(s, p, head, rest);
      LineIsFound(s, p, lines[0]);
      TrailersReadBack(s, p + |head|, lines[1..]);
    }
  }

  lemma EmptyHasNoBreak()
    ensures NoLineBreak("")
  {}

  /** The last chunk and its trailer section. */
  function EncodeEnd(size: string, extension: string, trailers: seq<string>): string {
    size + extension + CRLF + EncodeTrailers(trailers)
  }

  lemma EndReadsBack(s: string, p: nat, body: string, size: string, extension: string, trailers: seq<string>)
    requires IsSizeLine(size, extension, 0)
    requires forall i :: 0 <= i < |trailers| ==> trailers[i] != [] && NoLineBreak(trailers[i])
    requires StartsWith(s, p, EncodeEnd(size, extension, trailers))
    ensures p <= |s| && Chunked(s, p, body) == Done(p + |EncodeEnd(size, extension, trailers)|, body)
  {
    hide Search, ChunkSize, TrailerEnd, IsSizeLine, NoLineBreak;
    var line := size + extension;
    assert EncodeEnd(size, extension, trailers) == (line + CRLF) + EncodeTrailers(trailers);
    HasParts(s, p, line + CRLF, EncodeTrailers(trailers));
    SizeLineHasNoBreak(size, extension, 0);
    LineIsFound(s, p, line);
    ChunkSizeReadsBack(size, extension, 0);
    TrailersReadBack(s, p + |line| + 2, trailers);
  }

  lemma ChunkReadsBack(s: string, p: nat, body: string, c: Chunk)
    requires WellFormedChunk(c) && |body| + |c.data| <= 16777216
    requires StartsWith(s, p, c.size + c.extension + CRLF + c.data + CRLF)
    ensures var next := p + |c.size + c.extension + CRLF + c.data + CRLF|;
      next <= |s| && Chunked(s, p, body) == Chunked(s, next, body + c.data)
  {
    hide Search, ChunkSize, IsSizeLine, NoLineBreak;
    var line := c.size + c.extension;
    var start := p + |line| + 2;
    HasParts(s, p, line + CRLF + c.data, CRLF);
    HasParts(s, p, line + CRLF, c.data);
    SizeLineHasNoBreak(c.size, c.extension, |c.data|);
    LineIsFound(s, p, line);
    ChunkSizeReadsBack(c.size, c.extension, |c.data|);
    assert s[start..start + |c.data|] == c.data;
    assert s[start + |c.data|..start + |c.data| + 2] == CRLF;
  }

  /** Decoding returns the joined data and the exact end, whatever the split into chunks, their spelling,
      extensions and trailers, and whatever bytes follow. */
  lemma {:induction false} ChunkedRoundTrip(s: string, p: nat, body: string, cs: seq<Chunk>,
                                            size: string, extension: string, trailers: seq<string>)
    requires forall i :: 0 <= i < |cs| ==> WellFormedChunk(cs[i])
    requires IsSizeLine(size, extension, 0) && |body| + |Bodies(cs)| <= 16777216
    requires forall i :: 0 <= i < |trailers| ==> trailers[i] != [] && NoLineBreak(trailers[i])
    requires StartsWith(s, p, EncodeChunks(cs) + EncodeEnd(size, extension, trailers))
    ensures p <= |s|
    ensures Chunked(s, p, body)
         == Done(p + |EncodeChunks(cs) + EncodeEnd(size, extension, trailers)|, body + Bodies(cs))
    decreases cs
  {
    hide Chunked, IsSizeLine, NoLineBreak, WellFormedChunk, EncodeEnd, StartsWith;
    var end := EncodeEnd(size, extension, trailers);
    if cs == [] {
      assert EncodeChunks(cs) + end == end;
      assert body + Bodies(cs) == body;
      EndReadsBack(s, p, body, size, extension, trailers);
    } else {
      var c := cs[0];
      var head, rest := c.size + c.extension + CRLF + c.data + CRLF, EncodeChunks(cs[1..]) + end;
      assert EncodeChunks(cs) + end == head + rest;
      HasParts(s, p, head, rest);
      ChunkReadsBack(s, p, body, c);
      ChunkedRoundTrip(s, p + |head|, body + c.data, cs[1..], size, extension, trailers);
      assert body + (c.data + Bodies(cs[1..])) == body + c.data + Bodies(cs[1..]);
    }
  }
}
