/** The tokens of a text, with any blanks around them: what the lexer finds is exactly what stands there. */
module JsonTokens {
  import opened Text
  import opened JsonLexing
  import opened JsonNumbers
  import opened JsonPrinter

  // ---- blanks

  /** The four blanks of section 2 of RFC 8259. */
  predicate Blank(c: char) { c == ' ' || c == '\t' || c == '\n' || c == '\r' }

  predicate AllBlank(t: string) { forall i :: 0 <= i < |t| ==> Blank(t[i]) }

  /** How much of the text a token takes. */
  function Width(token: Token): nat {
    if token.kind == String then |token.text| + 2 else |token.text|
  }

  lemma TokenStandsAt(s: string, p: nat)
    requires p <= |s|
    ensures LexAt(s, p).Lexed? && LexAt(s, p).token.kind != End
        ==> Width(LexAt(s, p).token) > 0 && LexAt(s, p).next == p + Width(LexAt(s, p).token)
  {
    hide ScanString, NumberEnd, StartsWith;
  }

  /** A token may be looked for one character later exactly where a blank stands. */
  lemma BlankIsSkippedExactly(s: string, pos: nat)
    requires pos < |s|
    ensures Blank(s[pos]) ==> Lex(s, pos) == Lex(s, pos + 1)
    ensures Lex(s, pos).Lexed? && Lex(s, pos) == Lex(s, pos + 1) ==> Blank(s[pos])
  {
    hide LexAt;
    var p, q := SkipSpace(s, pos), SkipSpace(s, pos + 1);
    TokenStandsAt(s, p);
    TokenStandsAt(s, q);
    if p == |s| { assert !IsSpace(s[pos]) ==> p == pos; }
    if !Blank(s[pos]) && Lex(s, pos).Lexed? { NotTheEnd(s, p); }
  }

  lemma NotTheEnd(s: string, p: nat)
    requires p < |s|
    ensures LexAt(s, p).Lexed? ==> LexAt(s, p).token.kind != End
  {
    hide ScanString, NumberEnd, StartsWith;
  }

  lemma {:induction false} BlanksAreSkipped(s: string, p: nat, b: string)
    requires StartsWith(s, p, b) && AllBlank(b)
    ensures p + |b| <= |s| && Lex(s, p) == Lex(s, p + |b|)
    decreases b
  {
    hide Lex;
    if b != [] {
      assert b == [b[0]] + b[1..];
      HeadAt(s, p, b);
      HasParts(s, p, [b[0]], b[1..]);
      BlankIsSkippedExactly(s, p);
      BlanksAreSkipped(s, p + 1, b[1..]);
    }
  }

  // ---- one token and its text

  predicate IsNumber(t: string, n: NumberParts) { Grammatical(n) && Render(n) == t }

  /** The text of a token, by sections 2, 3, 6 and 7 of RFC 8259. */
  ghost predicate Spells(text: string, token: Token) {
    match token.kind
    case LeftBrace => text == "{" && token == Token(LeftBrace, "{", false)
    case RightBrace => text == "}" && token == Token(RightBrace, "}", false)
    case LeftBracket => text == "[" && token == Token(LeftBracket, "[", false)
    case RightBracket => text == "]" && token == Token(RightBracket, "]", false)
    case Colon => text == ":" && token == Token(Colon, ":", false)
    case Comma => text == "," && token == Token(Comma, ",", false)
    case True => text == "true" && token == Token(True, "true", false)
    case False => text == "false" && token == Token(False, "false", false)
    case Null => text == "null" && token == Token(Null, "null", false)
    case String => text == "\"" + token.text + "\"" && StringBody(token.text) && token.hasEscapes == ('\\' in token.text)
    case Number => text == token.text && !token.hasEscapes && exists n :: IsNumber(text, n)
    case End => false
  }

  predicate IsPunctuation(kind: TokenKind) {
    kind in {LeftBrace, RightBrace, LeftBracket, RightBracket, Colon, Comma}
  }

  lemma PunctuationStands(s: string, p: nat, text: string, token: Token)
    requires StartsWith(s, p, text) && Spells(text, token) && IsPunctuation(token.kind)
    ensures p < |s| && Lex(s, p) == Lexed(token, p + 1) && |text| == 1
  {
    hide Lex, StringBody, IsNumber;
    var c := text[0];
    assert text == [c] + "";
    PunctuatorLexes(s, p, c, "");
  }

  lemma StringStands(s: string, p: nat, text: string, token: Token)
    requires StartsWith(s, p, text) && Spells(text, token) && token.kind == String
    ensures p < |s| && Lex(s, p) == Lexed(token, p + |text|)
  {
    hide Lex, StringBody;
    var raw := token.text;
    assert text == "\"" + (raw + "\"");
    HasParts(s, p, "\"", raw + "\"");
    HasParts(s, p + 1, raw, "\"");
    HeadAt(s, p, "\"");
    HeadAt(s, p + 1 + |raw|, "\"");
    StringLexes(s, p, raw);
  }

  lemma NumberStands(s: string, p: nat, text: string, token: Token)
    requires StartsWith(s, p, text) && Spells(text, token) && token.kind == Number
    requires p + |text| < |s| ==> !Extends(s[p + |text|])
    ensures p < |s| && Lex(s, p) == Lexed(token, p + |text|)
  {
    hide Lex, StringBody, Extends;
    var n :| IsNumber(text, n);
    NumberLexesWhole(s, p, n);
    NumberEndsWhole(s, p, n);
  }

  lemma WordStands(s: string, p: nat, text: string, token: Token)
    requires StartsWith(s, p, text) && Spells(text, token) && token.kind in {True, False, Null}
    ensures p < |s| && Lex(s, p) == Lexed(token, p + |text|)
  {
    hide Lex, StringBody, IsNumber;
    HeadAt(s, p, text);
    WordLexes(s, p, text, token.kind);
  }

  /** A token's text is lexed as that token, whatever follows; a number must not be followed by more of a number. */
  lemma TokenIsLexed(s: string, p: nat, text: string, token: Token)
    requires StartsWith(s, p, text) && Spells(text, token)
    requires token.kind == Number && p + |text| < |s| ==> !Extends(s[p + |text|])
    ensures p < |s| && Lex(s, p) == Lexed(token, p + |text|)
  {
    if IsPunctuation(token.kind) {
      PunctuationStands(s, p, text, token);
    } else if token.kind == String {
      StringStands(s, p, text, token);
    } else if token.kind == Number {
      NumberStands(s, p, text, token);
    } else {
      WordStands(s, p, text, token);
    }
  }

  /** What is lexed is the text of a token, behind blanks. */
  lemma LexedIsSpelled(s: string, pos: nat) returns (start: nat)
    requires pos <= |s| && Lex(s, pos).Lexed? && Lex(s, pos).token.kind != End
    ensures var r := Lex(s, pos);
      pos <= start <= r.next && AllBlank(s[pos..start]) && Spells(s[start..r.next], r.token)
  {
    start := SkipSpace(s, pos);
    SkippedIsBlank(s, pos);
    LexedTextSpells(s, start);
    TokenStandsAt(s, start);
    hide LexAt, Spells;
  }

  lemma {:induction false} SkippedIsBlank(s: string, pos: nat)
    requires pos <= |s|
    ensures AllBlank(s[pos..SkipSpace(s, pos)])
    decreases |s| - pos
  {
    if pos < |s| && IsSpace(s[pos]) {
      SkippedIsBlank(s, pos + 1);
      var end := SkipSpace(s, pos);
      assert forall i :: 0 < i < end - pos ==> s[pos..end][i] == s[pos + 1..end][i - 1];
    }
  }

  lemma LexedTextSpells(s: string, p: nat)
    requires p < |s| || p == |s|
    ensures var r := LexAt(s, p); r.Lexed? && r.token.kind != End ==> p <= r.next <= |s| && Spells(s[p..r.next], r.token)
  {
    if p < |s| && LexAt(s, p).Lexed? {
      if s[p] == '\"' {
        StringTextSpells(s, p);
      } else if Punctuator(s[p]).None?
             && !StartsWith(s, p, "true") && !StartsWith(s, p, "false") && !StartsWith(s, p, "null") {
        NumberTextSpells(s, p);
      } else {
        hide ScanString, NumberEnd, StringBody, IsNumber;
      }
    }
  }

  lemma StringTextSpells(s: string, p: nat)
    requires p < |s| && s[p] == '\"' && LexAt(s, p).Lexed?
    ensures var r := LexAt(s, p); Spells(s[p..r.next], r.token)
  {
    hide ScanString, StringBody, NumberEnd, StartsWith, IsNumber;
    var end := ScanString(s, p + 1, false).value.0;
    ScanStringFindsTheQuote(s, p + 1, false, end);
    assert s[p..end + 1] == "\"" + s[p + 1..end] + "\"";
  }

  lemma NumberTextSpells(s: string, p: nat)
    requires p < |s| && s[p] != '\"' && LexAt(s, p).Lexed? && Punctuator(s[p]).None?
    requires !StartsWith(s, p, "true") && !StartsWith(s, p, "false") && !StartsWith(s, p, "null")
    ensures var r := LexAt(s, p); Spells(s[p..r.next], r.token)
  {
    var n := NumberTokenInGrammar(s, p);
    hide ScanString, NumberEnd, StringBody, StartsWith, Grammatical, Render;
    assert IsNumber(s[p..NumberEnd(s, p).value], n);
  }

  // ---- all tokens of a text

  /** The tokens from `p` to the end, or `None` if something there is no token. */
  function TokensFrom(s: string, p: nat): Option<seq<Token>>
    requires p <= |s|
    decreases |s| - p
  {
    match Lex(s, p)
    case Bad => None
    case Lexed(token, next) =>
      if token.kind == End then Some([])
      else
        match TokensFrom(s, next)
        case None => None
        case Some(ts) => Some([token] + ts)
  }

  lemma FirstOfTokens(s: string, p: nat, ts: seq<Token>)
    requires p <= |s| && TokensFrom(s, p) == Some(ts)
    ensures ts == [] ==> Lex(s, p).Lexed? && Lex(s, p).token.kind == End
    ensures ts != [] ==> Lex(s, p).Lexed? && Lex(s, p).token == ts[0] && ts[0].kind != End
                         && TokensFrom(s, Lex(s, p).next) == Some(ts[1..])
  {
    hide Lex;
    var first := Lex(s, p);
    if first.Lexed? && first.token.kind != End && TokensFrom(s, first.next).Some? {
      assert ([first.token] + TokensFrom(s, first.next).value)[1..] == TokensFrom(s, first.next).value;
    }
  }

  /** Texts with blanks before, between and after them. */
  function Spread(ls: seq<string>, bs: seq<string>): string
    requires |bs| == |ls| + 1
    decreases ls
  {
    if ls == [] then bs[0] else bs[0] + (ls[0] + Spread(ls[1..], bs[1..]))
  }

  ghost predicate AllSpell(ls: seq<string>, ts: seq<Token>) {
    |ls| == |ts| && forall i :: 0 <= i < |ls| ==> Spells(ls[i], ts[i])
  }

  predicate BlanksOnly(bs: seq<string>) { forall i :: 0 <= i < |bs| ==> AllBlank(bs[i]) }

  /** No number runs into what follows it. */
  predicate Apart(ls: seq<string>, bs: seq<string>, ts: seq<Token>)
    requires |bs| == |ls| + 1 == |ts| + 1
  {
    forall i :: 0 <= i < |ts| && ts[i].kind == Number ==>
      var rest := Spread(ls[i + 1..], bs[i + 1..]); rest == [] || !Extends(rest[0])
  }

  lemma ApartBehind(ls: seq<string>, bs: seq<string>, ts: seq<Token>)
    requires |bs| == |ls| + 1 == |ts| + 1 && ls != [] && Apart(ls, bs, ts)
    ensures Apart(ls[1..], bs[1..], ts[1..])
    ensures ts[0].kind == Number ==> var rest := Spread(ls[1..], bs[1..]); rest == [] || !Extends(rest[0])
  {
    hide Spread, Extends;
    forall i | 0 <= i < |ts[1..]| && ts[1..][i].kind == Number
      ensures var rest := Spread(ls[1..][i + 1..], bs[1..][i + 1..]); rest == [] || !Extends(rest[0])
    {
      assert ls[1..][i + 1..] == ls[i + 2..] && bs[1..][i + 1..] == bs[i + 2..] && ts[i + 1].kind == Number;
    }
  }

  /** Spread texts are lexed to their tokens. */
  lemma {:induction false} SpreadIsLexed(s: string, p: nat, ls: seq<string>, bs: seq<string>, ts: seq<Token>)
    requires |bs| == |ls| + 1 && AllSpell(ls, ts) && BlanksOnly(bs) && Apart(ls, bs, ts)
    requires StartsWith(s, p, Spread(ls, bs)) && p + |Spread(ls, bs)| == |s|
    ensures p <= |s| && TokensFrom(s, p) == Some(ts)
    decreases ls
  {
    hide Lex, Spells, AllBlank, StartsWith, Apart, Extends;
    if ls == [] {
      BlanksAreSkipped(s, p, bs[0]);
      EndLexes(s);
    } else {
      var rest := Spread(ls[1..], bs[1..]);
      HasParts(s, p, bs[0], ls[0] + rest);
      BlanksAreSkipped(s, p, bs[0]);
      var q := p + |bs[0]|;
      HasParts(s, q, ls[0], rest);
      ApartBehind(ls, bs, ts);
      if rest != [] { HeadAt(s, q + |ls[0]|, rest); }
      TokenIsLexed(s, q, ls[0], ts[0]);
      SpellsIsNoEnd(ls[0], ts[0]);
      SpreadIsLexed(s, q + |ls[0]|, ls[1..], bs[1..], ts[1..]);
      assert ts == [ts[0]] + ts[1..];
    }
  }

  lemma SpellsIsNoEnd(text: string, token: Token)
    requires Spells(text, token)
    ensures token.kind != End
  {}

  /** A text that can be lexed is its tokens' texts, spread. */
  lemma {:induction false} LexedIsSpread(s: string, p: nat) returns (ls: seq<string>, bs: seq<string>)
    requires p <= |s| && TokensFrom(s, p).Some?
    ensures |bs| == |ls| + 1 && AllSpell(ls, TokensFrom(s, p).value) && BlanksOnly(bs) && s[p..] == Spread(ls, bs)
    decreases |s| - p
  {
    hide Lex, Spells, AllBlank;
    var first := Lex(s, p);
    if first.token.kind == End {
      ls, bs := [], [s[p..]];
      EndIsBlank(s, p);
    } else {
      var start := LexedIsSpelled(s, p);
      var ls', bs' := LexedIsSpread(s, first.next);
      ls, bs := [s[start..first.next]] + ls', [s[p..start]] + bs';
      assert ls[1..] == ls' && bs[1..] == bs';
      JoinSlices(s, p, start, first.next);
      JoinSlices(s, p, first.next, |s|);
      assert s[p..start] + (s[start..first.next] + s[first.next..]) == s[p..];
    }
  }

  lemma EndIsBlank(s: string, p: nat)
    requires p <= |s| && Lex(s, p).Lexed? && Lex(s, p).token.kind == End
    ensures AllBlank(s[p..])
  {
    SkippedIsBlank(s, p);
    if SkipSpace(s, p) < |s| { NotTheEnd(s, SkipSpace(s, p)); }
    hide LexAt;
  }
}
