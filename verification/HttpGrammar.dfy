/** The head of a response against sections 4 and 5 of RFC 9112, in both directions, with every word written out. */
module HttpGrammar {
  import opened Text
  import opened HttpResponses
  import opened HttpDelivery
  import opened MessageFields

  // ---- words in any case

  /** Equal, or the capital of a small letter. */
  predicate SameLetter(c: char, small: char) {
    c == small || ('A' <= c <= 'Z' && c as int - 'A' as int == small as int - 'a' as int)
  }

  predicate IsWord(t: string, word: string) {
    |t| == |word| && forall i :: 0 <= i < |t| ==> SameLetter(t[i], word[i])
  }

  ghost predicate Mentions(t: string, word: string) { exists i :: WordAt(t, i, word) }

  predicate WordAt(t: string, i: int, word: string) { 0 <= i <= |t| - |word| && IsWord(t[i..i + |word|], word) }

  predicate NoCapitals(word: string) { forall i :: 0 <= i < |word| ==> !('A' <= word[i] <= 'Z') }

  lemma LowerIs(t: string, word: string)
    requires NoCapitals(word)
    ensures Lower(word) == word
    ensures Lower(t) == word <==> IsWord(t, word)
  {
    if Lower(t) == word {
      forall i | 0 <= i < |t| ensures SameLetter(t[i], word[i]) { assert Lower(t)[i] == word[i]; }
    }
  }

  lemma EqualsIs(t: string, word: string)
    requires NoCapitals(word)
    ensures IEquals(t, word) <==> IsWord(t, word)
  {
    LowerIs(t, word);
  }

  lemma ContainsIs(t: string, word: string)
    requires NoCapitals(word)
    ensures IContains(t, word) <==> Mentions(t, word)
  {
    hide Lower, IsWord;
    LowerIs(t, word);
    var low := Lower(t);
    assert |low| == |t| by { LowerSlice(t, 0, 0); }
    forall i: nat | i + |word| <= |t| ensures StartsWith(low, i, word) <==> WordAt(t, i, word) {
      LowerSlice(t, i, i + |word|);
      LowerIs(t[i..i + |word|], word);
    }
    if IContains(t, word) { assert WordAt(t, Search(low, word, 0).value, word); }
    if Mentions(t, word) {
      var i :| WordAt(t, i, word);
      assert StartsWith(low, i, word);
    }
  }

  lemma LowerSlice(t: string, a: nat, b: nat)
    requires a <= b <= |t|
    ensures |Lower(t)| == |t| && Lower(t)[a..b] == Lower(t[a..b])
  {}

  // ---- fields

  /** A field line, with the blanks around its value. */
  datatype Field = Field(name: string, lead: string, value: string, trail: string)

  function FieldText(f: Field): string { f.name + ":" + (f.lead + f.value + f.trail) }

  ghost predicate GoodField(f: Field) {
    && f.name != "" && ':' !in f.name && Blanks(f.lead) && Blanks(f.trail) && Trimmed(f.value)
    && (f.value == "" ==> f.trail == "") && NoLineBreak(FieldText(f))
  }

  lemma FieldIsRead(f: Field)
    requires GoodField(f)
    ensures FieldOf(FieldText(f)) == Some(HeaderField(f.name, f.value))
  {
    var line, colon := FieldText(f), |f.name|;
    OneCharacter(line, colon, ':');
    forall p | 0 <= p < colon ensures !StartsWith(line, p, ":") {
      OneCharacter(line, p, ':');
      assert line[p] == f.name[p] && f.name[p] in f.name;
    }
    SearchIs(line, ":", 0, colon);
    assert line[..colon] == f.name && line[colon + 1..] == f.lead + f.value + f.trail;
    TrimIs(f.lead, f.value, f.trail);
    hide Search, Trim;
  }

  lemma FieldBehind(line: string) returns (f: Field)
    requires FieldOf(line).Some? && NoLineBreak(line)
    ensures GoodField(f) && FieldText(f) == line && FieldOf(line).value == HeaderField(f.name, f.value)
  {
    hide Search, Trim;
    var colon := Search(line, ":", 0).value;
    OneCharacter(line, colon, ':');
    var lead, trail := TrimCuts(line[colon + 1..]);
    f := Field(line[..colon], lead, Trim(line[colon + 1..]), trail);
    assert line == line[..colon] + ":" + line[colon + 1..];
    forall p | 0 <= p < |f.name| ensures f.name[p] != ':' {
      OneCharacter(line, p, ':');
      assert line[p] == f.name[p];
    }
  }

  // ---- what the fields say

  ghost predicate IsLength(f: Field) { IsWord(f.name, "content-length") }

  /** No Content-Length, or all of them say `n`. */
  ghost predicate LengthIs(fs: seq<Field>, length: Option<nat>) {
    match length
    case None => forall i :: 0 <= i < |fs| ==> !IsLength(fs[i])
    case Some(n) =>
      && (exists i :: 0 <= i < |fs| && IsLength(fs[i]))
      && forall i :: 0 <= i < |fs| && IsLength(fs[i]) ==> IsU64(fs[i].value, n)
  }

  /** The last Transfer-Encoding counts. */
  ghost predicate SaysChunked(fs: seq<Field>) {
    fs != [] &&
    var f := fs[|fs| - 1];
    if IsWord(f.name, "transfer-encoding") then Mentions(f.value, "chunked") else SaysChunked(fs[..|fs| - 1])
  }

  /** The last Connection that says `close` or `keep-alive` counts. */
  ghost function SaysConnection(fs: seq<Field>): Option<bool> {
    if fs == [] then None
    else
      var f := fs[|fs| - 1];
      if IsWord(f.name, "connection") && Mentions(f.value, "close") then Some(false)
      else if IsWord(f.name, "connection") && Mentions(f.value, "keep-alive") then Some(true)
      else SaysConnection(fs[..|fs| - 1])
  }

  function Texts(fs: seq<Field>): seq<string> { seq(|fs|, i requires 0 <= i < |fs| => FieldText(fs[i])) }

  ghost predicate GoodFields(fs: seq<Field>) { forall i :: 0 <= i < |fs| ==> GoodField(fs[i]) }

  lemma {:induction false} TakeLast(h: Headers, ls: seq<string>, line: string)
    ensures TakeLines(h, ls + [line])
         == match TakeLines(h, ls) case None => None case Some(h') => TakeLine(h', line)
    decreases ls
  {
    hide TakeLine;
    var all := ls + [line];
    if ls == [] {
      assert all[1..] == [];
    } else {
      assert all[0] == ls[0] && all[1..] == ls[1..] + [line];
      if TakeLine(h, ls[0]).Some? { TakeLast(TakeLine(h, ls[0]).value, ls[1..], line); }
    }
  }

  lemma WordsHaveNoCapitals()
    ensures NoCapitals("content-length") && NoCapitals("transfer-encoding") && NoCapitals("connection")
    ensures NoCapitals("chunked") && NoCapitals("close") && NoCapitals("keep-alive")
  {}

  /** One field line, by what it says. */
  lemma FieldIsTaken(h: Headers, f: Field)
    requires GoodField(f)
    ensures TakeLine(h, FieldText(f)) ==
      if IsWord(f.name, "content-length") then
        var n := FromChars(f.value, 10, U64_MAX);
        if n.None? || (h.contentLength.Some? && h.contentLength.value != n.value) then None
        else Some(h.(contentLength := n))
      else if IsWord(f.name, "transfer-encoding") then Some(h.(chunked := Mentions(f.value, "chunked")))
      else if IsWord(f.name, "connection") && Mentions(f.value, "close") then Some(h.(keepAlive := Some(false)))
      else if IsWord(f.name, "connection") && Mentions(f.value, "keep-alive") then Some(h.(keepAlive := Some(true)))
      else Some(h)
  {
    hide FieldText, GoodField, IsWord, Mentions, IEquals, IContains, FromChars, FieldOf;
    FieldIsRead(f);
    WordsHaveNoCapitals();
    EqualsIs(f.name, "content-length");
    EqualsIs(f.name, "transfer-encoding");
    EqualsIs(f.name, "connection");
    ContainsIs(f.value, "chunked");
    ContainsIs(f.value, "close");
    ContainsIs(f.value, "keep-alive");
  }

  /** What is read from the fields so far. */
  ghost predicate Reads(h: Headers, h': Headers, fs: seq<Field>) {
    h' == Headers(h.status, h.http10, h'.contentLength, SaysChunked(fs), SaysConnection(fs)) && LengthIs(fs, h'.contentLength)
  }

  lemma LengthGrows(fs: seq<Field>, f: Field, length: Option<nat>, length': Option<nat>)
    requires LengthIs(fs, length)
    ensures !IsLength(f) ==> (LengthIs(fs + [f], length') <==> length' == length)
    ensures IsLength(f) ==> (LengthIs(fs + [f], length') <==>
      length'.Some? && IsU64(f.value, length'.value) && (length.Some? ==> length == length'))
  {
    hide IsLength, IsU64;
    var all := fs + [f];
    assert forall i :: 0 <= i < |fs| ==> all[i] == fs[i];
    assert all[|fs|] == f;
    LengthIsUnique(fs);
    if length'.Some? {
      assert LengthIs(all, length') && !IsLength(f) ==> exists i :: 0 <= i < |fs| && IsLength(fs[i]);
    }
    if LengthIs(all, length') && length.Some? && length'.Some? {
      var i :| 0 <= i < |fs| && IsLength(fs[i]);
      assert IsLength(all[i]);
      OneNumber(fs[i].value, length.value, length'.value);
    }
  }

  lemma OneNumber(t: string, n: nat, k: nat)
    requires IsU64(t, n) && IsU64(t, k)
    ensures n == k
  {
    U64IsRead(t, n);
    U64IsRead(t, k);
  }

  lemma LengthIsUnique(fs: seq<Field>)
    ensures forall a, b :: LengthIs(fs, a) && LengthIs(fs, b) ==> a == b
  {
    hide IsLength, IsU64;
    forall a, b | LengthIs(fs, a) && LengthIs(fs, b) ensures a == b {
      if a.Some? && b.Some? {
        var i :| 0 <= i < |fs| && IsLength(fs[i]);
        OneNumber(fs[i].value, a.value, b.value);
      }
    }
  }

  lemma LengthShrinks(fs: seq<Field>, f: Field, length: Option<nat>)
    requires LengthIs(fs + [f], length)
    ensures exists before :: LengthIs(fs, before)
  {
    hide IsLength, IsU64;
    var all := fs + [f];
    assert forall i :: 0 <= i < |fs| ==> all[i] == fs[i];
    if exists i :: 0 <= i < |fs| && IsLength(fs[i]) {
      var i :| 0 <= i < |fs| && IsLength(fs[i]);
      assert IsLength(all[i]);
      assert LengthIs(fs, length);
    } else {
      assert LengthIs(fs, None);
    }
  }

  /** The fields are accepted exactly if the lengths agree, and what is read is what they say. */
  lemma {:induction false} FieldsAreRead(h: Headers, fs: seq<Field>, h': Headers)
    requires GoodFields(fs) && h == Headers(h.status, h.http10, None, false, None)
    ensures TakeLines(h, Texts(fs)) == Some(h') <==> Reads(h, h', fs)
    decreases |fs|
  {
    hide FieldText, GoodField, TakeLine, LengthIs;
    if fs == [] {
      NoFields(h, h');
    } else {
      var n := |fs| - 1;
      var init, f := fs[..n], fs[n];
      assert fs == init + [f] && Texts(fs) == Texts(init) + [FieldText(f)];
      TakeLast(h, Texts(init), FieldText(f));
      var before := TakeLines(h, Texts(init));
      if before.Some? {
        FieldsAreRead(h, init, before.value);
        LastFieldIsRead(h, before.value, init, f, h');
      } else if Reads(h, h', fs) {
        LengthShrinks(init, f, h'.contentLength);
        var length :| LengthIs(init, length);
        FieldsAreRead(h, init, Headers(h.status, h.http10, length, SaysChunked(init), SaysConnection(init)));
      }
    }
  }

  lemma NoFields(h: Headers, h': Headers)
    requires h == Headers(h.status, h.http10, None, false, None)
    ensures TakeLines(h, Texts([])) == Some(h') <==> Reads(h, h', [])
  {
    assert LengthIs([], None);
  }

  lemma LastFieldIsRead(h: Headers, h0: Headers, fs: seq<Field>, f: Field, h': Headers)
    requires GoodField(f) && Reads(h, h0, fs)
    ensures TakeLine(h0, FieldText(f)) == Some(h') <==> Reads(h, h', fs + [f])
  {
    hide FieldText, GoodField, TakeLine, LengthIs, FromChars, IsU64;
    var all := fs + [f];
    assert all[..|fs|] == fs && all[|fs|] == f;
    FieldIsTaken(h0, f);
    LengthGrows(fs, f, h0.contentLength, h'.contentLength);
    if h'.contentLength.Some? { U64IsRead(f.value, h'.contentLength.value); }
    NamesDiffer(f.name);
  }

  /** A field has at most one of the three names. */
  lemma NamesDiffer(t: string)
    ensures IsWord(t, "content-length") ==> !IsWord(t, "transfer-encoding") && !IsWord(t, "connection")
    ensures IsWord(t, "transfer-encoding") ==> !IsWord(t, "connection")
  {
    assert |"content-length"| == 14 && |"transfer-encoding"| == 17 && |"connection"| == 10;
  }

  // ---- the status line

  /** `HTTP/1.`, a version digit, a blank, three digits and anything. */
  ghost predicate IsStatusLine(line: string, status: nat, http10: bool) {
    && |line| >= 12 && line[..7] == "HTTP/1." && (http10 <==> line[7] == '0') && line[8] == ' '
    && Digits(line[9..12], status) && 100 <= status <= 599
  }

  lemma StatusLineIsRead(line: string, h: Headers)
    ensures StatusLine(line) == Some(h) <==>
      h.status >= 0 && IsStatusLine(line, h.status, h.http10) && h == Headers(h.status, h.http10, None, false, None)
  {
    hide Digits, Value, Numeral;
    if |line| >= 12 {
      assert line[0..7] == line[..7];
      if h.status >= 0 { DigitsAreTheValue(line[9..12], h.status); }
    }
  }
}
