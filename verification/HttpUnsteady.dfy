/** Responses that are complete in the end but fail on the way: any chunked response with one long size line. */
module HttpUnsteady {
  import opened Text
  import opened HttpResponses
  import opened HttpDelivery

  // ---- chunked responses with any header

  /** Headers that announce a chunked body, with no blank line before their end. */
  ghost predicate ChunkedHead(head: string) {
    && |head| <= 65533
    && ParsedHeaders(head).Some? && ParsedHeaders(head).value.chunked
    && forall p :: 0 <= p < |head| ==> !StartsWith(head + BLANK_LINE, p, BLANK_LINE)
  }

  lemma HeadEndIsFound(head: string, rest: string)
    requires ChunkedHead(head)
    ensures Search(head + BLANK_LINE + rest, BLANK_LINE, 0) == Some(|head|)
    ensures (head + BLANK_LINE + rest)[..|head|] == head
    ensures |head + BLANK_LINE + rest| == |head| + 4 + |rest| && StartsWith(head + BLANK_LINE + rest, |head| + 4, rest)
  {
    var s := head + BLANK_LINE;
    assert (s + rest)[|head| + 4..|head| + 4 + |rest|] == rest;
    assert s[|head|..|head| + 4] == BLANK_LINE;
    hide Search, ParsedHeaders;
    SearchIs(s, BLANK_LINE, 0, |head|);
    SearchIsStable(s, rest, BLANK_LINE, 0);
    assert (s + rest)[..|head|] == head;
  }

  /** A body in no chunks but the last, whose size line carries an extension. */
  function LastChunkOnly(head: string, extension: string): string {
    head + BLANK_LINE + EncodeEnd("0", extension, [])
  }

  lemma PartsOfLastChunk(head: string, extension: string)
    requires ChunkedHead(head)
    ensures var s, end := LastChunkOnly(head, extension), EncodeEnd("0", extension, []);
      && |s| == |head| + 4 + |end| && s[..|head|] == head
      && Search(s, BLANK_LINE, 0) == Some(|head|) && StartsWith(s, |head| + 4, end)
  {
    hide Search, ParsedHeaders, EncodeEnd, StartsWith;
    HeadEndIsFound(head, EncodeEnd("0", extension, []));
  }

  lemma ZeroIsASize(extension: string)
    requires (extension == [] || extension[0] == ';') && NoLineBreak(extension)
    ensures IsSizeLine("0", extension, 0)
  {
    assert "0"[..0] == [];
    assert "" + "0" + "" == "0";
    assert Padded("0", "", "0", "");
    assert IsSize("0", "0", 0);
  }

  /** Such a response is complete, whatever the extension. */
  lemma LastChunkCompletes(head: string, extension: string)
    requires ChunkedHead(head) && (extension == [] || extension[0] == ';') && NoLineBreak(extension)
    ensures var s := LastChunkOnly(head, extension);
      ParsedHttp(s, false).Complete? && ParsedHttp(s, false).consumed == |s|
  {
    hide Search, ParsedHeaders, Chunked, EncodeEnd, IsSizeLine, NoLineBreak, StartsWith, LastChunkOnly;
    PartsOfLastChunk(head, extension);
    ZeroIsASize(extension);
    EndReadsBack(LastChunkOnly(head, extension), |head| + 4, "", "0", extension, []);
  }

  lemma EndLineStands(s: string, p: nat, extension: string)
    requires (extension == [] || extension[0] == ';') && NoLineBreak(extension)
    requires StartsWith(s, p, EncodeEnd("0", extension, []))
    ensures p <= |s| && ChunkAt(s, p) == ChunkLine(p + 3 + |extension|, 0)
  {
    ZeroIsASize(extension);
    var line := "0" + extension;
    assert EncodeEnd("0", extension, []) == (line + CRLF) + CRLF;
    HasParts(s, p, line + CRLF, CRLF);
    SizeLineHasNoBreak("0", extension, 0);
    LineIsFound(s, p, line);
    ChunkSizeReadsBack("0", extension, 0);
    hide Search, ChunkSize;
  }

  /** And it is steady exactly if its size line is short enough. */
  lemma LongLineIsUnsteady(head: string, extension: string)
    requires ChunkedHead(head) && (extension == [] || extension[0] == ';') && NoLineBreak(extension)
    ensures Steady(LastChunkOnly(head, extension)) <==> 1 + |extension| < 1024
  {
    hide Search, ParsedHeaders, EncodeEnd, NoLineBreak, ChunkAt, StartsWith, LastChunkOnly;
    PartsOfLastChunk(head, extension);
    EndLineStands(LastChunkOnly(head, extension), |head| + 4, extension);
  }

  // ---- one such header

  const STATUS := "HTTP/1.1 200 OK"
  const NAME := "transfer-encoding"
  const FIELD := NAME + ":chunked"
  const HEAD := STATUS + CRLF + FIELD

  predicate NoReturn(t: string) { forall i :: 0 <= i < |t| ==> t[i] != '\r' }

  lemma LinesHaveNoReturn()
    ensures NoReturn(STATUS) && NoReturn(FIELD)
  {
    assert NoReturn(NAME) && NoReturn(":chunked");
  }

  lemma StatusIsRead()
    ensures StatusLine(STATUS) == Some(Headers(200, false, None, false, None))
  {
    assert STATUS[0..7] == "HTTP/1.";
    var code := STATUS[9..12];
    assert code == "200" && code[..2] == "20" && "20"[..1] == "2" && "2"[..0] == [];
    assert Value("2", 10) == 2 && Value("20", 10) == 20 && Value("200", 10) == 200;
  }

  lemma FieldIsSplit()
    ensures FieldOf(FIELD) == Some(HeaderField(NAME, "chunked"))
  {
    forall p | 0 <= p < 17 ensures !StartsWith(FIELD, p, ":") {
      OneCharacter(FIELD, p, ':');
      NoColon(p);
    }
    OneCharacter(FIELD, 17, ':');
    hide Search;
    SearchIs(FIELD, ":", 0, 17);
    assert FIELD[..17] == NAME && FIELD[18..] == ":chunked"[1..] == "chunked";
  }

  lemma NoColon(p: nat)
    requires p < 17
    ensures FIELD[p] != ':'
  {
    assert FIELD[p] == NAME[p];
  }

  lemma FieldIsTaken(h: Headers)
    ensures TakeLine(h, FIELD) == Some(h.(chunked := true))
  {
    FieldIsSplit();
    hide FieldOf;
    assert |Lower(NAME)| == 17 && |Lower("content-length")| == 14;
    var word := Lower("chunked");
    assert word[0..|word|] == word;
    SearchIs(word, word, 0, 0);
  }

  lemma HeadHasTwoLines()
    ensures LineEnd(HEAD, 0) == 15 && HEAD[..15] == STATUS && Lines(HEAD, 17) == [FIELD]
  {
    LinesHaveNoReturn();
    hide Search;
    assert HEAD[0..0 + |STATUS + CRLF|] == STATUS + CRLF;
    LineIsFound(HEAD, 0, STATUS);
    forall p | 17 <= p ensures !StartsWith(HEAD, p, CRLF) {
      TwoCharacters(HEAD, p, CRLF);
      assert p < |HEAD| ==> HEAD[p] == FIELD[p - 17];
    }
    assert LineEnd(HEAD, 17) == |HEAD| && HEAD[17..|HEAD|] == FIELD;
    assert Lines(HEAD, |HEAD| + 2) == [];
  }

  lemma HeadIsChunked()
    ensures ChunkedHead(HEAD)
  {
    HeadHasTwoLines();
    StatusIsRead();
    FieldIsTaken(Headers(200, false, None, false, None));
    HeadHasNoBlankLine();
    hide StatusLine, TakeLine, Search, LineEnd, Lines;
    var h := Headers(200, false, None, false, None);
    assert [FIELD][1..] == [];
    assert TakeLines(h, [FIELD]) == Some(h.(chunked := true));
  }

  lemma HeadHasNoBlankLine()
    ensures forall p :: 0 <= p < |HEAD| ==> !StartsWith(HEAD + BLANK_LINE, p, BLANK_LINE)
  {
    LinesHaveNoReturn();
    var s := HEAD + BLANK_LINE;
    forall p | 0 <= p < |HEAD| ensures !StartsWith(s, p, BLANK_LINE) {
      assert p < 15 ==> s[p] == STATUS[p];
      assert p >= 17 ==> s[p] == FIELD[p - 17];
      assert s[16] == '\n' && s[17] == FIELD[0];
      NoBlankLineAt(s, p);
    }
  }

  lemma NoBlankLineAt(s: string, p: nat)
    requires p + 2 < |s| && (s[p] != '\r' || s[p + 2] != '\r')
    ensures !StartsWith(s, p, BLANK_LINE)
  {
    assert p + 4 <= |s| ==> s[p..p + 4][0] == s[p] && s[p..p + 4][2] == s[p + 2];
  }

  /** A complete response that fails on a prefix: its only size line is 1025 characters long. */
  lemma UnsteadyResponse() returns (s: string)
    ensures ParsedHttp(s, false).Complete? && !Steady(s) && !WaitsUntilComplete(s)
  {
    var extension := seq(1024, i => if i == 0 then ';' else 'x');
    hide ParsedHttp, Steady, ChunkedHead;
    HeadIsChunked();
    s := LastChunkOnly(HEAD, extension);
    LastChunkCompletes(HEAD, extension);
    LongLineIsUnsteady(HEAD, extension);
    WaitsExactlyIfSteady(s);
  }
}
