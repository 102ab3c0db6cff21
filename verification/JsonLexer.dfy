/** The pull lexer: what one call of `next` returns as a function of the position, the class that
    computes it, and the RFC 8259 grammar the tokens belong to. */
module JsonLexing {
  import opened Text

  datatype TokenKind =
    | LeftBrace | RightBrace | LeftBracket | RightBracket | Colon | Comma
    | String | Number | True | False | Null | End

  /** For strings, `text` is what stands between the quotes with escapes still encoded. */
  datatype Token = Token(kind: TokenKind, text: string, hasEscapes: bool)

  /** A token and the position after it, or a lexical error. */
  datatype Lexed = Lexed(token: Token, next: nat) | Bad

  predicate IsSpace(c: char) { c == ' ' || c == '\n' || c == '\r' || c == '\t' }

  function SkipSpace(s: string, pos: nat): (r: nat)
    requires pos <= |s|
    ensures pos <= r <= |s|
    ensures r < |s| ==> !IsSpace(s[r])
    decreases |s| - pos
  {
    if pos < |s| && IsSpace(s[pos]) then SkipSpace(s, pos + 1) else pos
  }

  // ---- strings

  const SIMPLE_ESCAPES := "\"\\/bfnrt"

  predicate IsPlain(c: char) { c != '\"' && c != '\\' && c >= ' ' }

  /** Length of the well-formed escape whose backslash is at `i`; 0 if there is none. */
  function EscapeLength(s: string, i: nat): (n: nat)
    ensures n > 0 ==> i + n <= |s|
  {
    if i + 1 >= |s| then 0
    else if s[i + 1] in SIMPLE_ESCAPES then 2
    else if s[i + 1] == 'u' && i + 5 < |s| && Numeral(s[i + 2..i + 6], 16) then 6
    else 0
  }

  /** Scans from inside a string to its closing quote: the quote's index and whether an escape was seen. */
  function ScanString(s: string, i: nat, escapes: bool): (r: Option<(nat, bool)>)
    requires i <= |s|
    ensures r.Some? ==> i <= r.value.0 < |s|
    decreases |s| - i
  {
    if i == |s| then None
    else if s[i] == '\"' then Some((i, escapes))
    else if s[i] < ' ' then None
    else if s[i] == '\\' then
      if EscapeLength(s, i) > 0 then ScanString(s, i + EscapeLength(s, i), true) else None
    else ScanString(s, i + 1, escapes)
  }

  /** The inside of a string literal, section 7 of RFC 8259. */
  predicate StringBody(t: string)
    decreases |t|
  {
    t == [] ||
    if t[0] == '\\' then EscapeLength(t, 0) > 0 && StringBody(t[EscapeLength(t, 0)..])
    else IsPlain(t[0]) && StringBody(t[1..])
  }

  lemma EscapeInside(s: string, i: nat, end: nat)
    requires i < end <= |s|
    ensures EscapeLength(s[i..end], 0) == if i + EscapeLength(s, i) <= end then EscapeLength(s, i) else 0
  {
    if i + 5 < end { SliceOfSlice(s, i, end, 2, 6); }
  }

  /** The scanner stops at `end` exactly when a string body and then a quote stand there. */
  lemma {:induction false} ScanStringFindsTheQuote(s: string, i: nat, escapes: bool, end: nat)
    requires i <= end < |s|
    ensures ScanString(s, i, escapes) == Some((end, escapes || '\\' in s[i..end]))
       <==> s[end] == '\"' && StringBody(s[i..end])
    ensures ScanString(s, i, escapes).Some? && ScanString(s, i, escapes).value.0 == end
        ==> ScanString(s, i, escapes).value.1 == (escapes || '\\' in s[i..end])
    decreases end - i
  {
    if i < end {
      var t := s[i..end];
      if s[i] == '\\' {
        var n := EscapeLength(s, i);
        EscapeInside(s, i, end);
        if 0 < n && i + n <= end {
          ScanStringFindsTheQuote(s, i + n, true, end);
          assert t[n..] == s[i + n..end] && t == t[..n] + t[n..];
          assert t[0] == '\\';
        }
      } else {
        ScanStringFindsTheQuote(s, i + 1, escapes, end);
        assert t[1..] == s[i + 1..end] && t == [s[i]] + t[1..];
      }
    }
  }

  // ---- numbers

  function DigitsEnd(s: string, i: nat): (r: nat)
    requires i <= |s|
    ensures i <= r <= |s|
    decreases |s| - i
  {
    if i < |s| && IsDigit(s[i]) then DigitsEnd(s, i + 1) else i
  }

  /** The character at `i`, or NUL past the end, as the source's `peek`. */
  function Peek(s: string, i: nat): char { if i < |s| then s[i] else '\0' }

  function WholeEnd(s: string, i: nat): (r: Option<nat>)
    requires i <= |s|
    ensures r.Some? ==> i < r.value <= |s|
  {
    if Peek(s, i) == '0' then Some(i + 1) else if DigitsEnd(s, i) > i then Some(DigitsEnd(s, i)) else None
  }

  function FractionEnd(s: string, i: nat): (r: Option<nat>)
    requires i <= |s|
    ensures r.Some? ==> i <= r.value <= |s|
  {
    if Peek(s, i) != '.' then Some(i)
    else if DigitsEnd(s, i + 1) > i + 1 then Some(DigitsEnd(s, i + 1)) else None
  }

  function ExponentEnd(s: string, i: nat): (r: Option<nat>)
    requires i <= |s|
    ensures r.Some? ==> i <= r.value <= |s|
  {
    if Peek(s, i) != 'e' && Peek(s, i) != 'E' then Some(i)
    else
      var j := if Peek(s, i + 1) == '+' || Peek(s, i + 1) == '-' then i + 2 else i + 1;
      if DigitsEnd(s, j) > j then Some(DigitsEnd(s, j)) else None
  }

  function NumberEnd(s: string, pos: nat): (r: Option<nat>)
    requires pos <= |s|
    ensures r.Some? ==> pos < r.value <= |s|
  {
    match WholeEnd(s, if Peek(s, pos) == '-' then pos + 1 else pos)
    case None => None
    case Some(w) =>
      match FractionEnd(s, w)
      case None => None
      case Some(f) => ExponentEnd(s, f)
  }

  // ---- one token

  function Punctuator(c: char): Option<TokenKind> {
    match c
    case '{' => Some(LeftBrace)
    case '}' => Some(RightBrace)
    case '[' => Some(LeftBracket)
    case ']' => Some(RightBracket)
    case ':' => Some(Colon)
    case ',' => Some(Comma)
    case _ => None
  }

  /** What `next` returns at `pos`. Every token but `End` moves the position forward, which is what
      makes both consumers terminate on every input. */
  function Lex(s: string, pos: nat): (r: Lexed)
    requires pos <= |s|
    ensures r.Lexed? ==> pos <= r.next <= |s|
    ensures r.Lexed? && r.token.kind != End ==> pos < r.next
    ensures r.Lexed? && r.token.hasEscapes ==> r.token.kind == String
  {
    LexAt(s, SkipSpace(s, pos))
  }

  function LexAt(s: string, p: nat): (r: Lexed)
    requires p <= |s|
    ensures r.Lexed? ==> p <= r.next <= |s|
    ensures r.Lexed? && r.token.kind != End ==> p < r.next
    ensures r.Lexed? && r.token.hasEscapes ==> r.token.kind == String
  {
    if p == |s| then Lexed(Token(End, "", false), p)
    else if Punctuator(s[p]).Some? then Lexed(Token(Punctuator(s[p]).value, [s[p]], false), p + 1)
    else if s[p] == '\"' then
      match ScanString(s, p + 1, false)
      case None => Bad
      case Some((end, escapes)) => Lexed(Token(String, s[p + 1..end], escapes), end + 1)
    else if StartsWith(s, p, "true") then Lexed(Token(True, "true", false), p + 4)
    else if StartsWith(s, p, "false") then Lexed(Token(False, "false", false), p + 5)
    else if StartsWith(s, p, "null") then Lexed(Token(Null, "null", false), p + 4)
    else if s[p] == '-' || IsDigit(s[p]) then
      match NumberEnd(s, p)
      case None => Bad
      case Some(end) => Lexed(Token(Number, s[p..end], false), end)
    else Bad
  }

  /** The lexer object. A failed call leaves the position inside the input; nothing pulls again after one. */
  class JsonLexer {
    const input: string
    var pos: nat

    ghost predicate Valid()
      reads this
    {
      pos <= |input|
    }

    constructor (input: string)
      ensures Valid() && this.input == input && pos == 0
    {
      this.input := input;
      pos := 0;
    }

    method Next() returns (token: Option<Token>)
      requires Valid()
      modifies this
      ensures Valid() && old(pos) <= pos
      ensures token.Some? ==> Lex(input, old(pos)) == Lexed(token.value, pos)
      ensures token.None? ==> Lex(input, old(pos)).Bad?
      ensures token.Some? && token.value.kind == String ==> StringBody(token.value.text)
    {
      while pos < |input| && IsSpace(input[pos])
        invariant Valid() && old(pos) <= pos
        invariant SkipSpace(input, pos) == SkipSpace(input, old(pos))
      {
        pos := pos + 1;
      }
      if pos == |input| { return Some(Token(End, "", false)); }

      var c := input[pos];
      var kind := Punctuator(c);
      if kind.Some? {
        pos := pos + 1;
        return Some(Token(kind.value, [c], false));
      }
      if c == '\"' {
        token := LexString();
        return;
      }
      var words := [("true", True), ("false", False), ("null", Null)];
      for i := 0 to |words|
        invariant pos < |input| && pos == SkipSpace(input, old(pos))
        invariant forall k :: 0 <= k < i ==> !StartsWith(input, pos, words[k].0)
      {
        var (word, kind) := words[i];
        if StartsWith(input, pos, word) {
          assert forall k :: 0 <= k < i ==> !StartsWith(input, pos, words[k].0);
          pos := pos + |word|;
          return Some(Token(kind, word, false));
        }
      }
      assert forall k :: 0 <= k < 3 ==> !StartsWith(input, pos, words[k].0);
      assert words[0].0 == "true" && words[1].0 == "false" && words[2].0 == "null";
      if c == '-' || IsDigit(c) {
        token := LexNumber();
        return;
      }
      return None;
    }

    method LexString() returns (token: Option<Token>)
      requires Valid() && pos < |input| && input[pos] == '\"'
      modifies this
      ensures Valid() && old(pos) <= pos
      ensures token.Some? ==> LexAt(input, old(pos)) == Lexed(token.value, pos)
      ensures token.None? ==> LexAt(input, old(pos)).Bad?
      ensures token.Some? ==> token.value.kind == String && StringBody(token.value.text)
    {
      pos := pos + 1;
      var start := pos;
      var hasEscapes := false;
      while pos < |input|
        invariant start == old(pos) + 1 <= pos <= |input|
        invariant ScanString(input, start, false) == ScanString(input, pos, hasEscapes)
      {
        var c := input[pos];
        if c == '\"' {
          token := Some(Token(String, input[start..pos], hasEscapes));
          ScanStringFindsTheQuote(input, start, false, pos);
          pos := pos + 1;
          return;
        }
        if c < ' ' { return None; }
        if c == '\\' {
          hasEscapes := true;
          var ok := SkipEscape();
          if !ok { return None; }
        }
        pos := pos + 1;
      }
      return None;
    }

    /** Moves from a backslash to the last character of its escape. */
    method SkipEscape() returns (ok: bool)
      requires Valid() && pos < |input|
      modifies this
      ensures Valid() && old(pos) <= pos
      ensures ok == (EscapeLength(input, old(pos)) > 0)
      ensures ok ==> pos + 1 == old(pos) + EscapeLength(input, old(pos))
    {
      ghost var p := pos;
      pos := pos + 1;
      if pos >= |input| { return false; }
      if input[pos] == 'u' {
        for i := 0 to 4
          invariant pos == p + 1 + i && pos < |input|
          invariant forall k :: p + 2 <= k < p + 2 + i ==> IsHex(input[k])
        {
          pos := pos + 1;
          if pos >= |input| { return false; }
          if !IsHex(input[pos]) {
            assert p + 5 < |input| ==> input[p + 2..p + 6][i] == input[pos];
            return false;
          }
        }
      } else if input[pos] !in SIMPLE_ESCAPES {
        return false;
      }
      return true;
    }

    method LexNumber() returns (token: Option<Token>)
      requires Valid() && pos < |input| && (input[pos] == '-' || IsDigit(input[pos]))
      modifies this
      ensures Valid() && old(pos) <= pos
      ensures token.Some? <==> NumberEnd(input, old(pos)).Some?
      ensures token.Some? ==> pos == NumberEnd(input, old(pos)).value
      ensures token.Some? ==> token.value == Token(Number, input[old(pos)..pos], false)
    {
      var start := pos;
      if Peek(input, pos) == '-' { pos := pos + 1; }
      var ok := SkipWhole();
      if !ok { return None; }
      ok := SkipFraction();
      if !ok { return None; }
      ok := SkipExponent();
      if !ok { return None; }
      return Some(Token(Number, input[start..pos], false));
    }

    method SkipWhole() returns (ok: bool)
      requires Valid()
      modifies this
      ensures Valid() && old(pos) <= pos
      ensures WholeEnd(input, old(pos)) == if ok then Some(pos) else None
    {
      if Peek(input, pos) == '0' {
        pos := pos + 1;
        ok := true;
      } else {
        ok := SkipDigits();
      }
    }

    method SkipFraction() returns (ok: bool)
      requires Valid()
      modifies this
      ensures Valid() && old(pos) <= pos
      ensures FractionEnd(input, old(pos)) == if ok then Some(pos) else None
    {
      ok := true;
      if Peek(input, pos) == '.' {
        pos := pos + 1;
        ok := SkipDigits();
      }
    }

    method SkipExponent() returns (ok: bool)
      requires Valid()
      modifies this
      ensures Valid() && old(pos) <= pos
      ensures ExponentEnd(input, old(pos)) == if ok then Some(pos) else None
    {
      ok := true;
      if Peek(input, pos) == 'e' || Peek(input, pos) == 'E' {
        pos := pos + 1;
        if Peek(input, pos) == '+' || Peek(input, pos) == '-' { pos := pos + 1; }
        ok := SkipDigits();
      }
    }

    method SkipDigits() returns (some: bool)
      requires Valid()
      modifies this
      ensures Valid() && pos == DigitsEnd(input, old(pos)) && some == (pos > old(pos))
    {
      var before := pos;
      while pos < |input| && IsDigit(input[pos])
        invariant old(pos) <= pos <= |input|
        invariant DigitsEnd(input, pos) == DigitsEnd(input, old(pos))
      {
        pos := pos + 1;
      }
      some := pos > before;
    }
  }
}
