/** Whole documents: the parser accepts exactly the texts of documents, with any blanks around their tokens. */
module JsonDocuments {
  import opened Text
  import opened JsonLexing
  import opened JsonNumbers
  import opened JsonTree
  import opened JsonStrings
  import opened JsonPrinter
  import opened JsonTokens
  import opened JsonGrammar
  import P = JsonPieces

  // ---- the text of a document

  function TextOf(t: Token): string { if t.kind == String then "\"" + t.text + "\"" else t.text }

  function TextsOf(ts: seq<Token>): seq<string> { seq(|ts|, i requires 0 <= i < |ts| => TextOf(ts[i])) }

  /** `s` is the document `d`, with the blanks `bs` before, between and after its tokens. */
  ghost predicate Writes(s: string, d: Doc, bs: seq<string>) {
    |bs| == |TokensOf(d)| + 1 && BlanksOnly(bs) && s == Spread(TextsOf(TokensOf(d)), bs)
  }

  /** Every token is spelled by its text. */
  ghost predicate Spelled(ts: seq<Token>) { forall i :: 0 <= i < |ts| ==> Spells(TextOf(ts[i]), ts[i]) }

  lemma SpelledJoined(a: seq<Token>, b: seq<Token>)
    requires Spelled(a) && Spelled(b)
    ensures Spelled(a + b)
  {
    hide Spells, TextOf;
  }

  lemma StringIsSpelled(ps: seq<P.Piece>)
    requires P.GoodPieces(ps)
    ensures Spelled([StringToken(ps)])
  {
    P.PiecesAreABody(ps);
    hide P.AllWritten;
  }

  lemma NumberIsSpelled(n: NumberParts)
    requires Grammatical(n)
    ensures Spelled([Token(Number, Render(n), false)])
  {
    assert IsNumber(Render(n), n);
  }

  lemma PunctuationIsSpelled()
    ensures Spelled([COMMA]) && Spelled([COLON]) && Spelled([OPEN_BRACKET]) && Spelled([CLOSE_BRACKET])
    ensures Spelled([OPEN_BRACE]) && Spelled([CLOSE_BRACE])
  {}

  lemma {:induction false} DocIsSpelled(d: Doc, room: nat)
    requires Good(d, room)
    ensures Spelled(TokensOf(d))
    decreases d, 0
  {
    hide Spelled;
    PunctuationIsSpelled();
    match d
    case NumberDoc(n) => NumberIsSpelled(n);
    case StringDoc(ps) => StringIsSpelled(ps);
    case ArrayDoc(ds) =>
      InArrayIsSpelled(ds, room - 1);
      SpelledJoined([OPEN_BRACKET], InArray(ds));
    case ObjectDoc(ms) =>
      InObjectIsSpelled(ms, room - 1);
      SpelledJoined([OPEN_BRACE], InObject(ms));
    case _ => WordIsSpelled(d);
  }

  lemma WordIsSpelled(d: Doc)
    requires d.NullDoc? || d.BoolDoc?
    ensures Spelled(TokensOf(d))
  {}

  lemma {:induction false} InArrayIsSpelled(ds: seq<Doc>, room: nat)
    requires GoodDocs(ds, room)
    ensures Spelled(InArray(ds))
    decreases ds, 1
  {
    hide Spelled, TokensOf, Good;
    PunctuationIsSpelled();
    if ds != [] {
      DocIsSpelled(ds[0], room);
      if |ds| > 1 {
        InArrayIsSpelled(ds[1..], room);
        SpelledJoined([COMMA], InArray(ds[1..]));
      }
      SpelledJoined(TokensOf(ds[0]), MoreElements(ds[1..]));
    }
  }

  lemma {:induction false} InObjectIsSpelled(ms: seq<DocMember>, room: nat)
    requires GoodMembers(ms, room)
    ensures Spelled(InObject(ms))
    decreases ms, 1
  {
    hide Spelled, TokensOf, StringToken, Good;
    PunctuationIsSpelled();
    if ms != [] {
      var m := ms[0];
      DocIsSpelled(m.value, room);
      StringIsSpelled(m.key);
      SpelledJoined([StringToken(m.key)], [COLON]);
      assert [StringToken(m.key)] + [COLON] == [StringToken(m.key), COLON];
      SpelledJoined([StringToken(m.key), COLON], TokensOf(m.value));
      if |ms| > 1 {
        InObjectIsSpelled(ms[1..], room);
        SpelledJoined([COMMA], InObject(ms[1..]));
      }
      SpelledJoined(TokensOfMember(m), MoreMembers(ms[1..]));
    }
  }

  /** Texts of tokens are never empty, and only a number can be run into. */
  lemma NumbersStayApart(ts: seq<Token>, bs: seq<string>)
    requires |bs| == |ts| + 1 && BlanksOnly(bs) && NumbersEnd(ts) && Spelled(ts)
    ensures Apart(TextsOf(ts), bs, ts)
  {
    var ls := TextsOf(ts);
    forall i | 0 <= i < |ts| && ts[i].kind == Number
      ensures var rest := Spread(ls[i + 1..], bs[i + 1..]); rest == [] || !Extends(rest[0])
    {
      hide Spells, TextOf;
      FirstAfterNumber(ts, bs, i);
    }
  }

  lemma FirstAfterNumber(ts: seq<Token>, bs: seq<string>, i: nat)
    requires |bs| == |ts| + 1 && BlanksOnly(bs) && NumbersEnd(ts) && Spelled(ts) && i < |ts| && ts[i].kind == Number
    ensures var rest := Spread(TextsOf(ts)[i + 1..], bs[i + 1..]); rest == [] || !Extends(rest[0])
  {
    var ls := TextsOf(ts);
    var rest := Spread(ls[i + 1..], bs[i + 1..]);
    if bs[i + 1] != [] {
      assert rest != [] ==> rest[0] == bs[i + 1][0] && Blank(bs[i + 1][0]);
    } else if i + 1 < |ts| {
      var t := ts[i + 1];
      assert t.kind in {Comma, RightBracket, RightBrace} && Spells(TextOf(t), t);
      assert ls[i + 1..][0] == TextOf(t) && rest[0] == TextOf(t)[0];
    }
  }

  /** The text of a document is lexed to its tokens. */
  lemma DocIsLexed(s: string, d: Doc, room: nat, bs: seq<string>)
    requires Good(d, room) && Writes(s, d, bs)
    ensures TokensFrom(s, 0) == Some(TokensOf(d))
  {
    hide TokensOf, Good, TokensFrom, Spread, Spells;
    var ts := TokensOf(d);
    DocIsSpelled(d, room);
    DocNumbersEnd(d);
    NumbersStayApart(ts, bs);
    assert s[0..0 + |s|] == s;
    SpreadIsLexed(s, 0, TextsOf(ts), bs, ts);
  }

  /** A text that is lexed is the text of its tokens. */
  lemma LexedIsWritten(s: string, ts: seq<Token>) returns (bs: seq<string>)
    requires TokensFrom(s, 0) == Some(ts)
    ensures |bs| == |ts| + 1 && BlanksOnly(bs) && s == Spread(TextsOf(ts), bs)
  {
    hide TokensFrom, Spread;
    var ls;
    ls, bs := LexedIsSpread(s, 0);
    assert s[0..] == s;
    forall i | 0 <= i < |ts| ensures ls[i] == TextsOf(ts)[i] { SpellsItsText(ls[i], ts[i]); }
    assert ls == TextsOf(ts);
  }

  lemma SpellsItsText(text: string, token: Token)
    requires Spells(text, token)
    ensures text == TextOf(token)
  {}

  // ---- the theorem

  /** A document within 64 levels parses to its meaning, and is rejected if it has none. */
  lemma DocumentParses(s: string, d: Doc, bs: seq<string>)
    requires Good(d, 64) && Writes(s, d, bs)
    ensures ParseJson(s) == MeaningOf(d, 64)
  {
    DocIsLexed(s, d, 64, bs);
    hide Lex, TokensFrom, MeaningOf, TokensOf, Good, ParseValue, Writes;
    assert TokensOf(d) + [] == TokensOf(d);
    DocIsRead(s, 0, d, [], 0);
    ReadToTheEnd(s, MeaningOf(d, 64));
  }

  lemma ReadToTheEnd(s: string, v: Option<JsonValue>)
    requires Reads(s, ValueAt(s, 0, 0), v, [])
    ensures ParseJson(s) == v
  {
    hide Lex, TokensFrom, ParseValue;
    var r := ValueAt(s, 0, 0);
    var none: seq<Token> := [];
    assert none + none == none;
    if r.Parsed? { FirstOfTokens(s, r.next, none); }
  }

  /** What is parsed is a document within 64 levels, and its meaning is the result. */
  lemma ParsedIsDocument(s: string) returns (d: Doc, bs: seq<string>)
    requires ParseJson(s).Some?
    ensures Good(d, 64) && Writes(s, d, bs) && MeaningOf(d, 64) == ParseJson(s) && TokensFrom(s, 0) == Some(TokensOf(d))
  {
    hide Lex, MeaningOf, TokensOf, Good, ParseValue, Spread;
    var r := ValueAt(s, 0, 0);
    var none: seq<Token> := [];
    assert TokensFrom(s, r.next) == Some(none) && none + none == none;
    d := DocOf(s, 0, 0, []);
    assert TokensOf(d) + [] == TokensOf(d);
    bs := LexedIsWritten(s, TokensOf(d));
  }

  /** `s` is a document that means `v`. */
  ghost predicate IsDocument(s: string, d: Doc, bs: seq<string>, v: JsonValue) {
    Good(d, 64) && Writes(s, d, bs) && MeaningOf(d, 64) == Some(v)
  }

  /** The parser returns `v` exactly for the texts of the documents that mean `v`. */
  lemma ParserMatchesGrammar(s: string, v: JsonValue)
    ensures ParseJson(s) == Some(v) <==> exists d, bs :: IsDocument(s, d, bs, v)
  {
    hide ParseJson, MeaningOf, Good, Writes;
    if ParseJson(s) == Some(v) {
      var d, bs := ParsedIsDocument(s);
      assert IsDocument(s, d, bs, v);
    }
    forall d, bs | IsDocument(s, d, bs, v) ensures ParseJson(s) == Some(v) { DocumentParses(s, d, bs); }
  }

  /** Blanks do not matter: a text that parses still does, to the same value, with any blanks around its tokens. */
  lemma BlanksDoNotMatter(s: string, ts: seq<Token>, bs: seq<string>)
    requires ParseJson(s).Some? && TokensFrom(s, 0) == Some(ts) && |bs| == |ts| + 1 && BlanksOnly(bs)
    ensures ParseJson(Spread(TextsOf(ts), bs)) == ParseJson(s)
  {
    hide ParseJson, MeaningOf, TokensOf, Good, Spread, TokensFrom;
    var d, bs' := ParsedIsDocument(s);
    DocumentParses(Spread(TextsOf(ts), bs), d, bs);
  }

  /** A printed value, with any blanks before, between and after its tokens, parses to that value. */
  lemma PrintedWithBlanks(v: JsonValue, ts: seq<Token>, bs: seq<string>)
    requires Printable(v, MAX_DEPTH) && TokensFrom(Print(v), 0) == Some(ts) && |bs| == |ts| + 1 && BlanksOnly(bs)
    ensures ParseJson(Spread(TextsOf(ts), bs)) == Some(v)
  {
    hide ParseJson, Spread, TokensFrom, Print, Printable;
    PrintThenParse(v);
    BlanksDoNotMatter(Print(v), ts, bs);
  }

  // ---- how the printer spells a character

  /** The printer writes one piece that stands for the character, and no shorter one does, except that it writes
      backspace and form feed with six characters although two would do. */
  lemma EscapeIsShort(c: char)
    ensures exists p :: P.GoodPiece(p) && EscapeChar(c) == P.Written(p) && P.Meaning([p]) == Some([c])
    ensures c != '\U{08}' && c != '\U{0C}' ==>
      forall p :: P.GoodPiece(p) && P.Meaning([p]) == Some([c]) ==> |EscapeChar(c)| <= |P.Written(p)|
    ensures EscapeChar('\U{08}') == "\\u0008" && EscapeChar('\U{0C}') == "\\u000c"
  {
    var p := PieceFor(c);
    TwoLongEscapes();
    hide EscapeChar, P.Meaning, P.Written, P.GoodPiece;
    forall p | P.GoodPiece(p) && P.Meaning([p]) == Some([c]) && c != '\U{08}' && c != '\U{0C}'
      ensures |EscapeChar(c)| <= |P.Written(p)|
    {
      NoPieceIsShorter(c, p);
    }
  }

  lemma TwoLongEscapes()
    ensures EscapeChar('\U{08}') == "\\u0008" && EscapeChar('\U{0C}') == "\\u000c"
  {}

  lemma NoPieceIsShorter(c: char, p: P.Piece)
    requires P.GoodPiece(p) && P.Meaning([p]) == Some([c]) && c != '\U{08}' && c != '\U{0C}'
    ensures |EscapeChar(c)| <= |P.Written(p)|
  {
    OnePieceMeans(p);
    hide P.Meaning, P.CodeUnit;
  }

  lemma PieceFor(c: char) returns (p: P.Piece)
    ensures P.GoodPiece(p) && EscapeChar(c) == P.Written(p) && P.Meaning([p]) == Some([c])
  {
    p := if c == '\"' || c == '\\' then P.Escaped(c)
         else if c == '\n' then P.Escaped('n') else if c == '\r' then P.Escaped('r') else if c == '\t' then P.Escaped('t')
         else if c < ' ' then P.Unicode(['0', '0', DigitChar(c as int / 16), DigitChar(c as int % 16)])
         else P.Literal(c);
    if p.Unicode? { ControlDigits(c as int); }
    OnePieceMeans(p);
  }

  lemma ControlDigits(n: nat)
    requires n < 32
    ensures var d := ['0', '0', DigitChar(n / 16), DigitChar(n % 16)]; P.GoodPiece(P.Unicode(d)) && P.CodeUnit(d) == n
  {
    P.HexDigitIs(DigitChar(n / 16));
    P.HexDigitIs(DigitChar(n % 16));
  }

  lemma OnePieceMeans(p: P.Piece)
    requires P.GoodPiece(p)
    ensures p.Literal? ==> P.Meaning([p]) == Some([p.c])
    ensures p.Escaped? ==> P.Meaning([p]) == Some([P.Meant(p.c).value])
    ensures p.Unicode? && P.CodeUnit(p.digits) < 0x80 ==> P.Meaning([p]) == Some([P.CodeUnit(p.digits) as char])
  {
    var none: seq<P.Piece> := [];
    assert [p][1..] == none && P.Meaning(none) == Some("");
    match p
    case Literal(c) => assert [c] + "" == [c];
    case Escaped(c) => assert [P.Meant(c).value] + "" == [P.Meant(c).value];
    case Unicode(d) => assert P.CodeUnit(d) < 0x80 ==> Utf8(P.CodeUnit(d)) + "" == [P.CodeUnit(d) as char];
  }

  // ---- members

  /** The value of the first member with this key. */
  ghost function FirstValue(ms: seq<DocMember>, room: nat, key: string): Option<JsonValue>
    requires GoodMembers(ms, room)
    decreases ms
  {
    if ms == [] then None
    else if P.Meaning(ms[0].key) == Some(key) then MeaningOf(ms[0].value, room)
    else FirstValue(ms[1..], room, key)
  }

  /** A parsed object holds, under each key, the value of the first member with that key. */
  lemma {:induction false} FirstMemberCounts(ms: seq<DocMember>, room: nat, acc: seq<Member>, key: string)
    requires GoodMembers(ms, room) && MembersMean(ms, room, acc).Some?
    ensures Find(MembersMean(ms, room, acc).value, key)
         == if Find(acc, key).Some? then Find(acc, key) else FirstValue(ms, room, key)
    decreases ms
  {
    hide P.Meaning, MeaningOf, Find, Emplace, Good;
    if ms != [] {
      var m := Member(P.Meaning(ms[0].key).value, MeaningOf(ms[0].value, room).value);
      FindEmplace(acc, m, key);
      FirstMemberCounts(ms[1..], room, Emplace(acc, m), key);
    }
  }
}
