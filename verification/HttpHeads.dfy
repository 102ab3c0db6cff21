/** Heads as lines: where a head ends, and what it says. */
module HttpHeads {
  import opened Text
  import opened HttpResponses
  import opened HttpDelivery
  import opened MessageFields
  import opened HttpGrammar

  function JoinedLines(ls: seq<string>): string
    requires ls != []
  {
    if |ls| == 1 then ls[0] else ls[0] + CRLF + JoinedLines(ls[1..])
  }

  ghost predicate GoodLines(ls: seq<string>) {
    ls != [] && forall i :: 0 <= i < |ls| ==> ls[i] != "" && NoLineBreak(ls[i])
  }

  lemma GoodRest(ls: seq<string>)
    requires GoodLines(ls) && |ls| > 1
    ensures GoodLines(ls[1..])
  {
    hide NoLineBreak;
  }

  // ---- lines are found

  lemma {:induction false} LinesAreFound(s: string, p: nat, ls: seq<string>)
    requires GoodLines(ls) && StartsWith(s, p, JoinedLines(ls)) && p + |JoinedLines(ls)| == |s|
    ensures p < |s| && LineEnd(s, p) == p + |ls[0]| && s[p..LineEnd(s, p)] == ls[0] && Lines(s, p) == ls
    ensures Lines(s, LineEnd(s, p) + 2) == ls[1..]
    decreases ls
  {
    hide Search, NoLineBreak;
    if |ls| == 1 {
      LastLineIsFound(s, p, ls[0]);
      assert ls == [ls[0]];
    } else {
      var rest := JoinedLines(ls[1..]);
      HasParts(s, p, ls[0] + CRLF, rest);
      LineIsFound(s, p, ls[0]);
      GoodRest(ls);
      LinesAreFound(s, p + |ls[0]| + 2, ls[1..]);
      assert ls == [ls[0]] + ls[1..];
    }
  }

  lemma LastLineIsFound(s: string, p: nat, line: string)
    requires StartsWith(s, p, line) && p + |line| == |s| && NoLineBreak(line)
    ensures Search(s, CRLF, p) == None && s[p..] == line
  {
    assert s[p..] == s[p..p + |line|];
    forall q | p <= q ensures !StartsWith(s, q, CRLF) {
      TwoCharacters(s, q, CRLF);
      assert q + 1 < |s| ==> s[q] == s[p..][q - p] && s[q + 1] == s[p..][q + 1 - p];
    }
    hide StartsWith;
    assert Search(s, CRLF, p).None?;
  }

  lemma BlankIsTwoBreaks(t: string, q: nat)
    requires StartsWith(t, q, "\r\n\r\n")
    ensures StartsWith(t, q, CRLF) && StartsWith(t, q + 2, CRLF)
  {
    assert "\r\n\r\n" == CRLF + CRLF;
    HasParts(t, q, CRLF, CRLF);
  }

  /** No blank line before the end of a head. */
  lemma {:induction false} NoBlankInside(t: string, p: nat, ls: seq<string>)
    requires GoodLines(ls) && StartsWith(t, p, JoinedLines(ls) + "\r\n\r\n")
    ensures forall q :: p <= q < p + |JoinedLines(ls)| ==> !StartsWith(t, q, "\r\n\r\n")
    decreases ls
  {
    hide NoLineBreak, StartsWith, Search;
    FirstLineStands(t, p, ls);
    LineIsFound(t, p, ls[0]);
    var end := p + |ls[0]|;
    if |ls| > 1 {
      GoodRest(ls);
      FirstLineStands(t, end + 2, ls[1..]);
      LineIsFound(t, end + 2, ls[1]);
      NoBlankInside(t, end + 2, ls[1..]);
    }
    forall q | p <= q < p + |JoinedLines(ls)| ensures !StartsWith(t, q, "\r\n\r\n") {
      if StartsWith(t, q, "\r\n\r\n") {
        BlankIsTwoBreaks(t, q);
        TwoCharacters(t, q, CRLF);
        TwoCharacters(t, end, CRLF);
      }
    }
  }

  lemma FirstLineStands(t: string, p: nat, ls: seq<string>)
    requires GoodLines(ls) && StartsWith(t, p, JoinedLines(ls) + "\r\n\r\n")
    ensures StartsWith(t, p, ls[0] + CRLF) && p + |ls[0]| + 2 <= |t| && NoLineBreak(ls[0])
    ensures |ls| > 1 ==> StartsWith(t, p + |ls[0]| + 2, JoinedLines(ls[1..]) + "\r\n\r\n")
    ensures StartsWith(t, p + |ls[0]|, CRLF)
  {
    hide NoLineBreak, StartsWith;
    var all := JoinedLines(ls) + "\r\n\r\n";
    var rest := if |ls| == 1 then CRLF else JoinedLines(ls[1..]) + "\r\n\r\n";
    assert all == (ls[0] + CRLF) + rest;
    HasParts(t, p, ls[0] + CRLF, rest);
    HasParts(t, p, ls[0], CRLF);
    assert |ls[0] + CRLF| == |ls[0]| + 2;
  }

  /** A head ends at the first blank line. */
  lemma HeadIsFound(data: string, ls: seq<string>)
    requires GoodLines(ls) && StartsWith(data, 0, JoinedLines(ls) + "\r\n\r\n")
    ensures var n := |JoinedLines(ls)|;
      n + 4 <= |data| && Search(data, BLANK_LINE, 0) == Some(n) && data[..n] == JoinedLines(ls)
  {
    hide JoinedLines, Search, NoLineBreak;
    NoBlankInside(data, 0, ls);
    HasParts(data, 0, JoinedLines(ls), "\r\n\r\n");
    assert data[0..|JoinedLines(ls)|] == data[..|JoinedLines(ls)|];
    SearchIs(data, BLANK_LINE, 0, |JoinedLines(ls)|);
  }

  // ---- every head is lines

  /** The first blank line of `data` is at `n`. */
  ghost predicate EndsAt(data: string, n: nat) {
    n + 4 <= |data| && StartsWith(data, n, BLANK_LINE) && forall q :: 0 <= q < n ==> !StartsWith(data, q, BLANK_LINE)
  }

  lemma BlankIsFound(data: string, n: nat)
    requires Search(data, BLANK_LINE, 0) == Some(n)
    ensures EndsAt(data, n)
  {
    assert StartsWith(data, n, BLANK_LINE) && n + 4 <= |data|;
    hide StartsWith;
  }

  /** `p` is where a line starts. */
  predicate LineStart(data: string, p: nat) {
    if p == 0 then !StartsWith(data, 0, CRLF) else p >= 2 && StartsWith(data, p - 2, CRLF)
  }

  /** From a line's start on, a head without a blank line is lines. */
  lemma {:induction false} HeadIsLines(data: string, n: nat, p: nat)
    requires EndsAt(data, n) && p < n && LineStart(data, p)
    ensures GoodLines(Lines(data[..n], p)) && JoinedLines(Lines(data[..n], p)) == data[p..n]
    decreases n - p
  {
    hide EndsAt, LineStart, NoLineBreak, LineEnd, JoinedLines;
    assert n <= |data| by { HeadFits(data, n); }
    var head := data[..n];
    var end := LineEnd(head, p);
    LineIsWhole(data, n, p);
    NoEmptyLine(data, n, p);
    assert head[p..end] == data[p..end];
    if end == n {
      OneLine(head, p);
    } else {
      MoreFollows(data, n, end);
      HeadIsLines(data, n, end + 2);
      FirstOfLines(data[p..end], Lines(head, end + 2));
      assert data[p..n] == data[p..end] + CRLF + data[end + 2..n];
    }
  }

  lemma HeadFits(data: string, n: nat)
    requires EndsAt(data, n)
    ensures n + 4 <= |data|
  {}

  lemma OneLine(head: string, p: nat)
    requires p < |head| && LineEnd(head, p) == |head| && NoLineBreak(head[p..|head|])
    ensures var line := head[p..|head|]; Lines(head, p) == [line] && GoodLines([line]) && JoinedLines([line]) == line
  {
    hide LineEnd, NoLineBreak;
  }

  lemma FirstOfLines(line: string, rest: seq<string>)
    requires line != "" && NoLineBreak(line) && GoodLines(rest)
    ensures GoodLines([line] + rest) && JoinedLines([line] + rest) == line + CRLF + JoinedLines(rest)
  {
    hide NoLineBreak;
    assert ([line] + rest)[1..] == rest;
  }

  lemma LineEndIs(head: string, p: nat)
    requires p <= |head|
    ensures var end := LineEnd(head, p);
      && (forall q :: p <= q < end ==> !StartsWith(head, q, CRLF))
      && (end < |head| ==> StartsWith(head, end, CRLF))
  {
    var r := Search(head, CRLF, p);
    if r.None? { assert forall q :: p <= q ==> !StartsWith(head, q, CRLF); }
    hide StartsWith;
  }

  /** The line at `p` has no break in it, and a break follows it. */
  lemma LineIsWhole(data: string, n: nat, p: nat)
    requires n <= |data| && p <= n
    ensures var end := LineEnd(data[..n], p);
      && NoLineBreak(data[p..end]) && (end < n ==> end + 2 <= n && data[end..end + 2] == CRLF)
  {
    hide LineEnd;
    var head := data[..n];
    var end := LineEnd(head, p);
    LineEndIs(head, p);
    forall i | 0 <= i < end - p - 1 ensures !(data[p..end][i] == '\r' && data[p..end][i + 1] == '\n') {
      TwoCharacters(head, p + i, CRLF);
    }
    if end < n { TwoCharacters(head, end, CRLF); }
  }

  lemma NoEmptyLine(data: string, n: nat, p: nat)
    requires EndsAt(data, n) && p < n && LineStart(data, p)
    ensures LineEnd(data[..n], p) > p
  {
    hide LineEnd;
    var head := data[..n];
    LineEndIs(head, p);
    if LineEnd(head, p) == p {
      TwoCharacters(head, p, CRLF);
      TwoCharacters(data, p, CRLF);
      if p > 0 { TwoBreaks(data, p - 2); }
    }
  }

  lemma TwoBreaks(t: string, q: nat)
    requires StartsWith(t, q, CRLF) && StartsWith(t, q + 2, CRLF)
    ensures StartsWith(t, q, BLANK_LINE)
  {
    assert t[q..q + 4] == t[q..q + 2] + t[q + 2..q + 4];
  }

  /** Behind a line's break the head goes on. */
  lemma MoreFollows(data: string, n: nat, end: nat)
    requires EndsAt(data, n) && end + 2 <= n && data[end..end + 2] == CRLF
    ensures end + 2 < n && LineStart(data, end + 2)
  {
    if end + 2 == n {
      BlankIsTwoBreaks(data, n);
      TwoBreaks(data, end);
    }
  }

  // ---- what a head says

  /** A status line and fields. */
  ghost predicate IsHead(head: string, line: string, fs: seq<Field>) {
    NoLineBreak(line) && line != "" && GoodFields(fs) && head == JoinedLines([line] + Texts(fs))
  }

  lemma HeadHasGoodLines(head: string, line: string, fs: seq<Field>)
    requires IsHead(head, line, fs)
    ensures GoodLines([line] + Texts(fs))
  {
    hide NoLineBreak, FieldText;
    var ls := [line] + Texts(fs);
    forall i | 0 <= i < |ls| ensures ls[i] != "" && NoLineBreak(ls[i]) {
      if i > 0 { FieldTextIsLine(fs[i - 1]); }
    }
  }

  lemma FieldTextIsLine(f: Field)
    requires GoodField(f)
    ensures FieldText(f) != "" && NoLineBreak(FieldText(f))
  {}

  /** A head is accepted exactly if its lines say so, and what is read is what they say. */
  lemma HeadIsRead(head: string, line: string, fs: seq<Field>, h: Headers)
    requires IsHead(head, line, fs)
    ensures ParsedHeaders(head) == Some(h) <==>
      && h.status >= 0 && IsStatusLine(line, h.status, h.http10) && LengthIs(fs, h.contentLength)
      && h.chunked == SaysChunked(fs) && h.keepAlive == SaysConnection(fs)
  {
    hide StatusLine, TakeLines, IsStatusLine, LengthIs, SaysChunked, SaysConnection, JoinedLines, Lines, LineEnd;
    var ls := [line] + Texts(fs);
    HeadHasGoodLines(head, line, fs);
    assert head[0..|head|] == head;
    LinesAreFound(head, 0, ls);
    assert ls[1..] == Texts(fs) && head[0..|line|] == head[..|line|];
    StatusLineIsRead(line, Headers(h.status, h.http10, None, false, None));
    var first := StatusLine(line);
    if first.Some? {
      StatusLineIsRead(line, first.value);
      FieldsAreRead(first.value, fs, h);
    }
    if h.status >= 0 && IsStatusLine(line, h.status, h.http10) {
      FieldsAreRead(Headers(h.status, h.http10, None, false, None), fs, h);
    }
  }

  /** What is accepted is a head. */
  lemma HeadBehind(data: string, n: nat) returns (line: string, fs: seq<Field>)
    requires EndsAt(data, n) && ParsedHeaders(data[..n]).Some?
    ensures IsHead(data[..n], line, fs)
  {
    hide EndsAt, NoLineBreak, TakeLines, GoodFields, JoinedLines, StatusLine, LineStart, LineEnd;
    HeadFits(data, n);
    var head := data[..n];
    AcceptedStarts(data, n);
    HeadIsLines(data, n, 0);
    var ls := Lines(head, 0);
    line := ls[0];
    assert ls[1..] == Lines(head, LineEnd(head, 0) + 2);
    assert head[0..LineEnd(head, 0)] == head[..LineEnd(head, 0)];
    GoodTail(ls);
    fs := FieldsBehind(StatusLine(line).value, ls[1..]);
    assert ls == [line] + ls[1..];
    assert data[0..n] == data[..n];
  }

  lemma GoodTail(ls: seq<string>)
    requires GoodLines(ls)
    ensures forall i :: 0 <= i < |ls[1..]| ==> NoLineBreak(ls[1..][i])
    ensures NoLineBreak(ls[0]) && ls[0] != ""
  {
    hide NoLineBreak;
  }

  lemma AcceptedStarts(data: string, n: nat)
    requires n <= |data| && ParsedHeaders(data[..n]).Some?
    ensures n > 0 && LineStart(data, 0)
  {
    hide TakeLines, LineEnd, Lines, FromChars;
    var head := data[..n];
    var line := head[..LineEnd(head, 0)];
    assert StatusLine(line).Some?;
    HeadAt(line, 0, "HTTP/1.");
    TwoCharacters(data, 0, CRLF);
    assert data[0] == line[0];
  }

  lemma {:induction false} FieldsBehind(h: Headers, ls: seq<string>) returns (fs: seq<Field>)
    requires TakeLines(h, ls).Some? && forall i :: 0 <= i < |ls| ==> NoLineBreak(ls[i])
    ensures GoodFields(fs) && Texts(fs) == ls
    decreases ls
  {
    hide NoLineBreak, FieldOf, GoodField, FieldText;
    if ls == [] {
      fs := [];
    } else {
      var f := FieldBehind(ls[0]);
      var more := FieldsBehind(TakeLine(h, ls[0]).value, ls[1..]);
      fs := [f] + more;
      assert Texts(fs) == [FieldText(f)] + Texts(more);
    }
  }
}
