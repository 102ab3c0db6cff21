/** The parser against the grammar of RFC 8259, in both directions: it accepts exactly the texts of documents that
    nest at most 64 levels and pair their surrogates, and returns what the document means. */
module JsonGrammar {
  import opened Text
  import opened JsonLexing
  import opened JsonNumbers
  import opened JsonTree
  import opened JsonTokens
  import P = JsonPieces

  // ---- documents

  datatype Doc =
    | NullDoc
    | BoolDoc(b: bool)
    | NumberDoc(n: NumberParts)
    | StringDoc(ps: seq<P.Piece>)
    | ArrayDoc(elements: seq<Doc>)
    | ObjectDoc(members: seq<DocMember>)

  datatype DocMember = DocMember(key: seq<P.Piece>, value: Doc)

  /** Its numbers and strings are well formed, and it nests at most `room` levels. */
  ghost predicate Good(d: Doc, room: nat) {
    match d
    case NumberDoc(n) => Grammatical(n)
    case StringDoc(ps) => P.GoodPieces(ps)
    case ArrayDoc(ds) => room > 0 && forall i :: 0 <= i < |ds| ==> Good(ds[i], room - 1)
    case ObjectDoc(ms) =>
      room > 0 && forall i :: 0 <= i < |ms| ==> P.GoodPieces(ms[i].key) && Good(ms[i].value, room - 1)
    case _ => true
  }

  ghost predicate GoodDocs(ds: seq<Doc>, room: nat) { forall i :: 0 <= i < |ds| ==> Good(ds[i], room) }

  ghost predicate GoodMembers(ms: seq<DocMember>, room: nat) {
    forall i :: 0 <= i < |ms| ==> P.GoodPieces(ms[i].key) && Good(ms[i].value, room)
  }

  const COMMA := Token(Comma, ",", false)
  const COLON := Token(Colon, ":", false)
  const OPEN_BRACKET := Token(LeftBracket, "[", false)
  const CLOSE_BRACKET := Token(RightBracket, "]", false)
  const OPEN_BRACE := Token(LeftBrace, "{", false)
  const CLOSE_BRACE := Token(RightBrace, "}", false)

  ghost function StringToken(ps: seq<P.Piece>): Token {
    var t := P.AllWritten(ps); Token(String, t, '\\' in t)
  }

  /** The tokens of a document. */
  ghost function TokensOf(d: Doc): (ts: seq<Token>)
    ensures ts != []
    decreases d, 0
  {
    match d
    case NullDoc => [Token(Null, "null", false)]
    case BoolDoc(b) => [if b then Token(True, "true", false) else Token(False, "false", false)]
    case NumberDoc(n) => [Token(Number, Render(n), false)]
    case StringDoc(ps) => [StringToken(ps)]
    case ArrayDoc(ds) => [OPEN_BRACKET] + InArray(ds)
    case ObjectDoc(ms) => [OPEN_BRACE] + InObject(ms)
  }

  /** What stands behind an opening bracket. */
  ghost function InArray(ds: seq<Doc>): seq<Token>
    decreases ds, 0
  {
    if ds == [] then [CLOSE_BRACKET] else TokensOf(ds[0]) + MoreElements(ds[1..])
  }

  ghost function MoreElements(ds: seq<Doc>): seq<Token>
    decreases ds, 1
  {
    if ds == [] then [CLOSE_BRACKET] else [COMMA] + InArray(ds)
  }

  /** What stands behind an opening brace. */
  ghost function InObject(ms: seq<DocMember>): seq<Token>
    decreases ms, 0
  {
    if ms == [] then [CLOSE_BRACE] else TokensOfMember(ms[0]) + MoreMembers(ms[1..])
  }

  ghost function TokensOfMember(m: DocMember): seq<Token>
    decreases m, 0
  {
    [StringToken(m.key), COLON] + TokensOf(m.value)
  }

  ghost function MoreMembers(ms: seq<DocMember>): seq<Token>
    decreases ms, 1
  {
    if ms == [] then [CLOSE_BRACE] else [COMMA] + InObject(ms)
  }

  /** What a document means: numbers are kept as text, and of equal keys the first wins. `None` if a surrogate has
      no partner. */
  ghost function MeaningOf(d: Doc, room: nat): Option<JsonValue>
    requires Good(d, room)
    decreases d
  {
    match d
    case NullDoc => Some(JNull)
    case BoolDoc(b) => Some(JBool(b))
    case NumberDoc(n) => Some(JText(Render(n)))
    case StringDoc(ps) => (match P.Meaning(ps) case Some(t) => Some(JText(t)) case None => None)
    case ArrayDoc(ds) => (match ElementsMean(ds, room - 1, []) case Some(vs) => Some(JArray(vs)) case None => None)
    case ObjectDoc(ms) => (match MembersMean(ms, room - 1, []) case Some(r) => Some(JObject(r)) case None => None)
  }

  ghost function ElementsMean(ds: seq<Doc>, room: nat, vs: seq<JsonValue>): Option<seq<JsonValue>>
    requires GoodDocs(ds, room)
    decreases ds
  {
    if ds == [] then Some(vs)
    else
      match MeaningOf(ds[0], room)
      case None => None
      case Some(v) => ElementsMean(ds[1..], room, vs + [v])
  }

  ghost function MembersMean(ms: seq<DocMember>, room: nat, acc: seq<Member>): Option<seq<Member>>
    requires GoodMembers(ms, room)
    decreases ms
  {
    if ms == [] then Some(acc)
    else
      match (P.Meaning(ms[0].key), MeaningOf(ms[0].value, room))
      case (Some(key), Some(v)) => MembersMean(ms[1..], room, Emplace(acc, Member(key, v)))
      case _ => None
  }

  // ---- the parser reads documents

  lemma StringTokenMeans(ps: seq<P.Piece>)
    requires P.GoodPieces(ps)
    ensures StringValue(StringToken(ps)) == P.Meaning(ps)
  {
    var t := P.AllWritten(ps);
    assert t[0..] == t;
    P.PiecesAreDecoded(t, 0, ps);
    if '\\' !in t { LiteralsMeanThemselves(ps); }
  }

  lemma {:induction false} LiteralsMeanThemselves(ps: seq<P.Piece>)
    requires P.GoodPieces(ps) && '\\' !in P.AllWritten(ps)
    ensures P.Meaning(ps) == Some(P.AllWritten(ps))
    decreases |ps|
  {
    if ps != [] {
      var head, rest := P.Written(ps[0]), P.AllWritten(ps[1..]);
      assert head[0] in head + rest;
      assert forall c :: c in rest ==> c in head + rest;
      LiteralsMeanThemselves(ps[1..]);
    }
  }

  /** `ts` stand at `p`, then `rest`. */
  ghost predicate Ahead(s: string, p: nat, ts: seq<Token>, rest: seq<Token>) {
    p <= |s| && TokensFrom(s, p) == Some(ts + rest)
  }

  /** Reading one token off. */
  lemma TakeToken(s: string, p: nat, ts: seq<Token>, rest: seq<Token>) returns (next: nat)
    requires Ahead(s, p, ts, rest) && ts != []
    ensures p < next && Lex(s, p) == Lexed(ts[0], next) && ts[0].kind != End && Ahead(s, next, ts[1..], rest)
  {
    hide Lex, TokensFrom;
    FirstOfTokens(s, p, ts + rest);
    next := Lex(s, p).next;
    assert (ts + rest)[1..] == ts[1..] + rest;
  }

  lemma Regroup(s: string, p: nat, a: seq<Token>, b: seq<Token>, rest: seq<Token>)
    ensures Ahead(s, p, a + b, rest) <==> Ahead(s, p, a, b + rest)
  {
    assert (a + b) + rest == a + (b + rest);
  }

  // the parser's functions from a position on

  function ValueAt(s: string, p: nat, depth: nat): Parsed<JsonValue> {
    if p <= |s| && Lex(s, p).Lexed? then ParseValue(s, Lex(s, p).token, Lex(s, p).next, depth) else Rejected
  }

  function ElementsAt(s: string, p: nat, depth: nat, vs: seq<JsonValue>): Parsed<seq<JsonValue>> {
    if p <= |s| && Lex(s, p).Lexed? then ParseElements(s, Lex(s, p).token, Lex(s, p).next, depth, vs) else Rejected
  }

  function MembersAt(s: string, p: nat, depth: nat, acc: seq<Member>): Parsed<seq<Member>> {
    if p <= |s| && Lex(s, p).Lexed? then ParseMembers(s, Lex(s, p).token, Lex(s, p).next, depth, acc) else Rejected
  }

  /** One turn of the loop over elements. */
  lemma ElementsStep(s: string, p: nat, depth: nat, vs: seq<JsonValue>)
    ensures var v := ValueAt(s, p, depth);
      ElementsAt(s, p, depth, vs) ==
      if v.Rejected? || Lex(s, v.next).Bad? then Rejected
      else if Lex(s, v.next).token.kind == RightBracket then Parsed(vs + [v.value], Lex(s, v.next).next)
      else if Lex(s, v.next).token.kind != Comma then Rejected
      else ElementsAt(s, Lex(s, v.next).next, depth, vs + [v.value])
  {
    hide Lex, ParseValue;
  }

  /** A token at `p`, then a colon, and `start` is behind it. */
  predicate ColonBefore(s: string, p: nat, start: nat) {
    && p <= |s| && Lex(s, p).Lexed?
    && var colon := Lex(s, Lex(s, p).next); colon.Lexed? && colon.token.kind == Colon && start == colon.next
  }

  /** One turn of the loop over members. */
  lemma MembersStep(s: string, p: nat, start: nat, depth: nat, acc: seq<Member>)
    requires ColonBefore(s, p, start)
    ensures var (key, v) := (Lex(s, p).token, ValueAt(s, start, depth));
      MembersAt(s, p, depth, acc) ==
      if key.kind != String || StringValue(key).None? || v.Rejected? || Lex(s, v.next).Bad? then Rejected
      else
        var (acc', sep) := (Emplace(acc, Member(StringValue(key).value, v.value)), Lex(s, v.next));
        if sep.token.kind == RightBrace then Parsed(acc', sep.next)
        else if sep.token.kind != Comma then Rejected
        else MembersAt(s, sep.next, depth, acc')
  {
    hide Lex, ParseValue, StringValue, Emplace;
  }

  /** `m` is read, if there is one, and the parser stops right before `rest`. */
  ghost predicate Reads<T>(s: string, r: Parsed<T>, m: Option<T>, rest: seq<Token>) {
    if m.None? then r.Rejected? else r.Parsed? && r.value == m.value && Ahead(s, r.next, [], rest)
  }

  lemma {:induction false} DocIsRead(s: string, p: nat, d: Doc, rest: seq<Token>, depth: nat)
    requires depth <= 64 && Good(d, 64 - depth) && Ahead(s, p, TokensOf(d), rest)
    ensures Reads(s, ValueAt(s, p, depth), MeaningOf(d, 64 - depth), rest)
    decreases d, 1
  {
    hide Lex, TokensFrom, StringValue, ParseObject, ParseArray, ElementsMean, MembersMean;
    var ts := TokensOf(d);
    var next := TakeToken(s, p, ts, rest);
    match d
    case StringDoc(ps) =>
      hide P.Meaning, P.AllWritten;
      StringTokenMeans(ps);
      assert ts[1..] == [];
    case ArrayDoc(ds) => ArrayIsRead(s, next, ds, rest, depth + 1);
    case ObjectDoc(ms) => ObjectIsRead(s, next, ms, rest, depth + 1);
    case _ => assert ts[1..] == [];
  }

  lemma {:induction false} ArrayIsRead(s: string, p: nat, ds: seq<Doc>, rest: seq<Token>, depth: nat)
    requires depth <= 64 && p <= |s| && GoodDocs(ds, 64 - depth) && Ahead(s, p, InArray(ds), rest)
    ensures Reads(s, ParseArray(s, p, depth), ElementsMean(ds, 64 - depth, []), rest)
    decreases ds, 2
  {
    hide Lex, TokensFrom, ParseElements, MeaningOf, TokensOf, MoreElements;
    var next := TakeToken(s, p, InArray(ds), rest);
    if ds == [] {
      assert [CLOSE_BRACKET][1..] == [];
    } else {
      FirstIsNoClosing(ds[0]);
      ElementsAreRead(s, p, ds, rest, depth, []);
    }
  }

  lemma FirstIsNoClosing(d: Doc)
    ensures TokensOf(d)[0].kind !in {RightBracket, RightBrace, End, Comma, Colon}
  {}

  lemma {:induction false} ElementsAreRead(
    s: string, p: nat, ds: seq<Doc>, rest: seq<Token>, depth: nat, vs: seq<JsonValue>)
    requires ds != [] && depth <= 64 && p <= |s| && GoodDocs(ds, 64 - depth) && Ahead(s, p, InArray(ds), rest)
    ensures Reads(s, ElementsAt(s, p, depth, vs), ElementsMean(ds, 64 - depth, vs), rest)
    decreases ds, 0
  {
    hide Lex, Ahead, ValueAt, ElementsAt, MeaningOf, TokensOf, InArray;
    var more := MoreElements(ds[1..]);
    assert InArray(ds) == TokensOf(ds[0]) + more by { InArrayIs(ds); }
    Regroup(s, p, TokensOf(ds[0]), more, rest);
    DocIsRead(s, p, ds[0], more + rest, depth);
    var v := ValueAt(s, p, depth);
    ElementsStep(s, p, depth, vs);
    if v.Parsed? {
      ToBack(s, v.next, more, rest);
      var q := TakeToken(s, v.next, more, rest);
      if |ds| > 1 {
        assert more[1..] == InArray(ds[1..]);
        AheadIsInText(s, q, more[1..], rest);
        ElementsAreRead(s, q, ds[1..], rest, depth, vs + [v.value]);
      } else {
        assert more[1..] == [];
      }
    }
  }

  lemma InArrayIs(ds: seq<Doc>)
    ensures ds != [] ==> InArray(ds) == TokensOf(ds[0]) + MoreElements(ds[1..])
  {}

  lemma AheadIsInText(s: string, p: nat, ts: seq<Token>, rest: seq<Token>)
    requires Ahead(s, p, ts, rest)
    ensures p <= |s|
  {}

  lemma ToBack(s: string, p: nat, ts: seq<Token>, rest: seq<Token>)
    requires Ahead(s, p, [], ts + rest)
    ensures Ahead(s, p, ts, rest) && p <= |s|
  {
    assert [] + (ts + rest) == ts + rest;
  }

  lemma {:induction false} ObjectIsRead(s: string, p: nat, ms: seq<DocMember>, rest: seq<Token>, depth: nat)
    requires depth <= 64 && p <= |s| && GoodMembers(ms, 64 - depth) && Ahead(s, p, InObject(ms), rest)
    ensures Reads(s, ParseObject(s, p, depth), MembersMean(ms, 64 - depth, []), rest)
    decreases ms, 2
  {
    hide Lex, TokensFrom, ParseMembers, MeaningOf, TokensOf, MoreMembers;
    var next := TakeToken(s, p, InObject(ms), rest);
    if ms == [] {
      assert [CLOSE_BRACE][1..] == [];
    } else {
      MembersAreRead(s, p, ms, rest, depth, []);
    }
  }

  lemma {:induction false} MembersAreRead(
    s: string, p: nat, ms: seq<DocMember>, rest: seq<Token>, depth: nat, acc: seq<Member>)
    requires ms != [] && depth <= 64 && p <= |s| && GoodMembers(ms, 64 - depth) && Ahead(s, p, InObject(ms), rest)
    ensures Reads(s, MembersAt(s, p, depth, acc), MembersMean(ms, 64 - depth, acc), rest)
    decreases ms, 1
  {
    hide Lex, Ahead, ValueAt, MembersAt, MeaningOf, TokensOfMember, InObject, StringValue, Emplace;
    hide P.Meaning, P.AllWritten;
    var more := MoreMembers(ms[1..]);
    assert InObject(ms) == TokensOfMember(ms[0]) + more by { InObjectIs(ms); }
    var q := MemberIsRead(s, p, ms[0], more, rest, depth);
    var v := ValueAt(s, q, depth);
    MembersStep(s, p, q, depth, acc);
    if v.Parsed? && P.Meaning(ms[0].key).Some? {
      ToBack(s, v.next, more, rest);
      var q' := TakeToken(s, v.next, more, rest);
      if |ms| > 1 {
        assert more[1..] == InObject(ms[1..]);
        AheadIsInText(s, q', more[1..], rest);
        MembersAreRead(s, q', ms[1..], rest, depth, Emplace(acc, Member(P.Meaning(ms[0].key).value, v.value)));
      } else {
        assert more[1..] == [];
      }
    }
  }

  lemma InObjectIs(ms: seq<DocMember>)
    ensures ms != [] ==> InObject(ms) == TokensOfMember(ms[0]) + MoreMembers(ms[1..])
  {}

  /** A key, a colon and the value behind it. */
  lemma {:induction false} MemberIsRead(s: string, p: nat, m: DocMember, more: seq<Token>, rest: seq<Token>, depth: nat)
    returns (q: nat)
    requires depth <= 64 && p <= |s| && P.GoodPieces(m.key) && Good(m.value, 64 - depth)
    requires Ahead(s, p, TokensOfMember(m) + more, rest)
    ensures ColonBefore(s, p, q) && Lex(s, p).token == StringToken(m.key)
    ensures StringValue(StringToken(m.key)) == P.Meaning(m.key)
    ensures Reads(s, ValueAt(s, q, depth), MeaningOf(m.value, 64 - depth), more + rest)
    decreases m, 0
  {
    hide Lex, TokensFrom, ValueAt, Reads, MeaningOf, TokensOf, StringValue, StringToken, P.Meaning;
    var ts := TokensOfMember(m) + more;
    var colon := TakeToken(s, p, ts, rest);
    StringTokenMeans(m.key);
    q := TakeToken(s, colon, ts[1..], rest);
    assert ts[1..][1..] == TokensOf(m.value) + more;
    Regroup(s, q, TokensOf(m.value), more, rest);
    DocIsRead(s, q, m.value, more + rest, depth);
  }

  // ---- what is parsed is a document

  lemma PutToken(s: string, p: nat, ts: seq<Token>, rest: seq<Token>)
    requires p <= |s| && Lex(s, p).Lexed? && Lex(s, p).token.kind != End && Ahead(s, Lex(s, p).next, ts, rest)
    ensures Ahead(s, p, [Lex(s, p).token] + ts, rest)
  {
    hide Lex;
    assert ([Lex(s, p).token] + ts) + rest == [Lex(s, p).token] + (ts + rest);
  }

  lemma PutTwoTokens(s: string, p: nat, q: nat, ts: seq<Token>, rest: seq<Token>)
    requires p <= |s| && Lex(s, p).Lexed? && Lex(s, p).token.kind != End && q == Lex(s, p).next
    requires Lex(s, q).Lexed? && Lex(s, q).token.kind != End && Ahead(s, Lex(s, q).next, ts, rest)
    ensures Ahead(s, p, [Lex(s, p).token, Lex(s, q).token] + ts, rest)
  {
    hide Lex, Ahead;
    PutToken(s, q, ts, rest);
    PutToken(s, p, [Lex(s, q).token] + ts, rest);
    assert [Lex(s, p).token] + ([Lex(s, q).token] + ts) == [Lex(s, p).token, Lex(s, q).token] + ts;
  }

  /** The tokens of a text look as the grammar's. */
  lemma TokenLooks(s: string, p: nat)
    requires p <= |s| && Lex(s, p).Lexed?
    ensures var t := Lex(s, p).token;
      && (t.kind == Comma ==> t == COMMA) && (t.kind == Colon ==> t == COLON)
      && (t.kind == LeftBracket ==> t == OPEN_BRACKET) && (t.kind == RightBracket ==> t == CLOSE_BRACKET)
      && (t.kind == LeftBrace ==> t == OPEN_BRACE) && (t.kind == RightBrace ==> t == CLOSE_BRACE)
  {
    if Lex(s, p).token.kind != End {
      hide Lex;
      var start := LexedIsSpelled(s, p);
    }
  }

  lemma StringOf(s: string, p: nat) returns (ps: seq<P.Piece>)
    requires p <= |s| && Lex(s, p).Lexed? && Lex(s, p).token.kind == String
    ensures P.GoodPieces(ps) && Lex(s, p).token == StringToken(ps) && StringValue(StringToken(ps)) == P.Meaning(ps)
  {
    hide Lex, P.AllWritten, StringValue, P.Meaning;
    var start := LexedIsSpelled(s, p);
    ps := P.BodyIsPieces(Lex(s, p).token.text);
    StringTokenMeans(ps);
  }

  /** A token that is a value by itself. */
  lemma ScalarOf(s: string, p: nat, depth: nat) returns (d: Doc)
    requires depth <= 64 && ValueAt(s, p, depth).Parsed? && Lex(s, p).token.kind !in {LeftBrace, LeftBracket}
    ensures Good(d, 64 - depth) && TokensOf(d) == [Lex(s, p).token]
    ensures MeaningOf(d, 64 - depth) == Some(ValueAt(s, p, depth).value) && ValueAt(s, p, depth).next == Lex(s, p).next
  {
    hide Lex, P.AllWritten, P.Meaning, StringValue, ParseObject, ParseArray, Grammatical, Render;
    var t := Lex(s, p).token;
    if t.kind == String {
      var ps := StringOf(s, p);
      d := StringDoc(ps);
    } else {
      var start := LexedIsSpelled(s, p);
      if t.kind == Number {
        var n :| IsNumber(t.text, n);
        d := NumberDoc(n);
      } else {
        d := if t.kind == Null then NullDoc else BoolDoc(t.kind == True);
      }
    }
  }

  /** The document behind a value that was read. */
  lemma {:induction false} DocOf(s: string, p: nat, depth: nat, rest: seq<Token>) returns (d: Doc)
    requires depth <= 64 && ValueAt(s, p, depth).Parsed? && Ahead(s, ValueAt(s, p, depth).next, [], rest)
    ensures Good(d, 64 - depth) && Ahead(s, p, TokensOf(d), rest)
    ensures MeaningOf(d, 64 - depth) == Some(ValueAt(s, p, depth).value)
    decreases |s| - p, 0
  {
    hide Lex, Ahead, StringValue, ParseObject, ParseArray, ElementsMean, MembersMean, MoreElements;
    hide MoreMembers, TokensOfMember;
    var t, next := Lex(s, p).token, Lex(s, p).next;
    TokenLooks(s, p);
    if t.kind == LeftBracket {
      var ds := ArrayOf(s, next, depth + 1, rest);
      d := ArrayDoc(ds);
      PutToken(s, p, InArray(ds), rest);
    } else if t.kind == LeftBrace {
      var ms := ObjectOf(s, next, depth + 1, rest);
      d := ObjectDoc(ms);
      PutToken(s, p, InObject(ms), rest);
    } else {
      d := ScalarOf(s, p, depth);
      PutToken(s, p, [], rest);
      assert [t] + [] == [t];
    }
  }

  /** `ds` stand behind `p`, before `rest`, and continue `vs` to `result`. */
  ghost predicate AreElements(
    s: string, p: nat, ds: seq<Doc>, room: nat, vs: seq<JsonValue>, result: seq<JsonValue>, rest: seq<Token>)
  {
    GoodDocs(ds, room) && Ahead(s, p, InArray(ds), rest) && ElementsMean(ds, room, vs) == Some(result)
  }

  ghost predicate AreMembers(
    s: string, p: nat, ms: seq<DocMember>, room: nat, acc: seq<Member>, result: seq<Member>, rest: seq<Token>)
  {
    GoodMembers(ms, room) && Ahead(s, p, InObject(ms), rest) && MembersMean(ms, room, acc) == Some(result)
  }

  lemma {:induction false} ArrayOf(s: string, p: nat, depth: nat, rest: seq<Token>) returns (ds: seq<Doc>)
    requires depth <= 64 && p <= |s| && ParseArray(s, p, depth).Parsed? && Ahead(s, ParseArray(s, p, depth).next, [], rest)
    ensures AreElements(s, p, ds, 64 - depth, [], ParseArray(s, p, depth).value, rest)
    decreases |s| - p, 2
  {
    hide Lex, Ahead, ParseElements, MeaningOf, TokensOf, MoreElements;
    var r := ParseArray(s, p, depth);
    TokenLooks(s, p);
    if Lex(s, p).token.kind == RightBracket {
      ds := [];
      PutToken(s, p, [], rest);
      assert [CLOSE_BRACKET] + [] == [CLOSE_BRACKET];
    } else {
      ds := ElementsOf(s, p, depth, rest, [], r.value, r.next);
    }
  }

  lemma {:induction false} ElementsOf(
    s: string, p: nat, depth: nat, rest: seq<Token>, vs: seq<JsonValue>, result: seq<JsonValue>, end: nat)
    returns (ds: seq<Doc>)
    requires depth <= 64 && ElementsAt(s, p, depth, vs) == Parsed(result, end) && Ahead(s, end, [], rest)
    ensures ds != [] && AreElements(s, p, ds, 64 - depth, vs, result, rest)
    decreases |s| - p, 1
  {
    hide Lex, Ahead, ValueAt, ElementsAt, MeaningOf, TokensOf, Good, InArray;
    var v := ValueAt(s, p, depth);
    ElementsStep(s, p, depth, vs);
    var q := v.next;
    ValueMoves(s, p, depth);
    TokenLooks(s, q);
    var tail: seq<Doc> := [];
    if Lex(s, q).token.kind == RightBracket {
      PutToken(s, q, [], rest);
      assert [CLOSE_BRACKET] + [] == [CLOSE_BRACKET];
    } else {
      tail := ElementsOf(s, Lex(s, q).next, depth, rest, vs + [v.value], result, end);
      PutToken(s, q, InArray(tail), rest);
    }
    assert ElementsMean(tail, 64 - depth, vs + [v.value]) == Some(result);
    var more := MoreElements(tail);
    ToFront(s, q, more, rest);
    var d := DocOf(s, p, depth, more + rest);
    ds := [d] + tail;
    assert ds[1..] == tail;
    GoodDocsGrow(d, tail, 64 - depth);
    InArrayIs(ds);
    Regroup(s, p, TokensOf(d), more, rest);
    assert Ahead(s, p, InArray(ds), rest);
    assert ElementsMean(ds, 64 - depth, vs) == Some(result);
  }

  lemma GoodDocsGrow(d: Doc, ds: seq<Doc>, room: nat)
    requires Good(d, room) && GoodDocs(ds, room)
    ensures GoodDocs([d] + ds, room)
  {
    hide Good;
  }

  lemma GoodMembersGrow(m: DocMember, ms: seq<DocMember>, room: nat)
    requires P.GoodPieces(m.key) && Good(m.value, room) && GoodMembers(ms, room)
    ensures GoodMembers([m] + ms, room)
  {
    hide Good;
  }

  lemma ValueMoves(s: string, p: nat, depth: nat)
    ensures ValueAt(s, p, depth).Parsed? ==> p <= |s| && Lex(s, p).Lexed? && p <= ValueAt(s, p, depth).next <= |s|
  {
    hide Lex, ParseValue;
  }

  lemma ToFront(s: string, p: nat, ts: seq<Token>, rest: seq<Token>)
    requires Ahead(s, p, ts, rest)
    ensures Ahead(s, p, [], ts + rest)
  {
    assert [] + (ts + rest) == ts + rest;
  }

  lemma {:induction false} ObjectOf(s: string, p: nat, depth: nat, rest: seq<Token>) returns (ms: seq<DocMember>)
    requires depth <= 64 && p <= |s| && ParseObject(s, p, depth).Parsed?
    requires Ahead(s, ParseObject(s, p, depth).next, [], rest)
    ensures AreMembers(s, p, ms, 64 - depth, [], ParseObject(s, p, depth).value, rest)
    decreases |s| - p, 2
  {
    hide Lex, Ahead, ParseMembers, MeaningOf, TokensOfMember, MoreMembers;
    var r := ParseObject(s, p, depth);
    TokenLooks(s, p);
    if Lex(s, p).token.kind == RightBrace {
      ms := [];
      PutToken(s, p, [], rest);
      assert [CLOSE_BRACE] + [] == [CLOSE_BRACE];
    } else {
      ms := MembersOf(s, p, depth, rest, [], r.value, r.next);
    }
  }

  lemma {:induction false} MembersOf(
    s: string, p: nat, depth: nat, rest: seq<Token>, acc: seq<Member>, result: seq<Member>, end: nat)
    returns (ms: seq<DocMember>)
    requires depth <= 64 && MembersAt(s, p, depth, acc) == Parsed(result, end) && Ahead(s, end, [], rest)
    ensures ms != [] && AreMembers(s, p, ms, 64 - depth, acc, result, rest)
    decreases |s| - p, 1
  {
    hide Lex, Ahead, ValueAt, MembersAt, MeaningOf, TokensOfMember, Good, InObject, StringValue, Emplace;
    hide P.Meaning, P.AllWritten;
    var start := MemberStarts(s, p, depth, acc);
    MembersStep(s, p, start, depth, acc);
    var key, v := Lex(s, p), ValueAt(s, start, depth);
    var q := v.next;
    ValueMoves(s, start, depth);
    TokenLooks(s, q);
    var acc' := Emplace(acc, Member(StringValue(key.token).value, v.value));
    var tail: seq<DocMember> := [];
    if Lex(s, q).token.kind == RightBrace {
      PutToken(s, q, [], rest);
      assert [CLOSE_BRACE] + [] == [CLOSE_BRACE];
    } else {
      tail := MembersOf(s, Lex(s, q).next, depth, rest, acc', result, end);
      PutToken(s, q, InObject(tail), rest);
    }
    assert MembersMean(tail, 64 - depth, acc') == Some(result);
    var more := MoreMembers(tail);
    ToFront(s, q, more, rest);
    var m := MemberOf(s, p, start, depth, key.token, v.value, q, more + rest);
    ms := [m] + tail;
    assert ms[1..] == tail;
    GoodMembersGrow(m, tail, 64 - depth);
    InObjectIs(ms);
    Regroup(s, p, TokensOfMember(m), more, rest);
    assert Ahead(s, p, InObject(ms), rest);
    assert MembersMean(ms, 64 - depth, acc) == Some(result);
  }

  lemma MemberStarts(s: string, p: nat, depth: nat, acc: seq<Member>) returns (start: nat)
    requires MembersAt(s, p, depth, acc).Parsed?
    ensures p < start && ColonBefore(s, p, start) && Lex(s, p).token.kind == String && StringValue(Lex(s, p).token).Some?
    ensures ValueAt(s, start, depth).Parsed?
  {
    hide Lex, ParseValue, StringValue, Emplace;
    start := Lex(s, Lex(s, p).next).next;
  }

  ghost predicate IsMember(
    s: string, p: nat, m: DocMember, room: nat, key: Option<string>, v: JsonValue, rest: seq<Token>)
  {
    && P.GoodPieces(m.key) && Good(m.value, room) && Ahead(s, p, TokensOfMember(m), rest)
    && P.Meaning(m.key) == key && MeaningOf(m.value, room) == Some(v)
  }

  lemma {:induction false} MemberOf(
    s: string, p: nat, start: nat, depth: nat, token: Token, v: JsonValue, end: nat, rest: seq<Token>)
    returns (m: DocMember)
    requires depth <= 64 && ColonBefore(s, p, start) && Lex(s, p).token == token && token.kind == String
    requires ValueAt(s, start, depth) == Parsed(v, end) && Ahead(s, end, [], rest)
    ensures IsMember(s, p, m, 64 - depth, StringValue(token), v, rest)
    decreases |s| - p, 0
  {
    hide Lex, Ahead, ValueAt, MeaningOf, TokensOf, Good, StringValue, StringToken, P.Meaning;
    var colon := Lex(s, p).next;
    TokenLooks(s, colon);
    var key := StringOf(s, p);
    var d := DocOf(s, start, depth, rest);
    m := DocMember(key, d);
    PutTwoTokens(s, p, colon, TokensOf(d), rest);
  }

  // ---- numbers in a document end where their text ends

  /** Behind a number stands a comma or a closing token, or nothing. */
  ghost predicate NumbersEnd(ts: seq<Token>) {
    forall i :: 0 <= i < |ts| && ts[i].kind == Number && i + 1 < |ts| ==> ts[i + 1].kind in {Comma, RightBracket, RightBrace}
  }

  /** Two runs of tokens next to each other: only a number at the seam needs care. */
  lemma NumbersEndJoined(a: seq<Token>, b: seq<Token>)
    requires NumbersEnd(a) && NumbersEnd(b) && a != [] && b != []
    requires a[|a| - 1].kind != Number || b[0].kind in {Comma, RightBracket, RightBrace}
    ensures NumbersEnd(a + b)
  {
    var ts := a + b;
    forall i | 0 <= i < |ts| && ts[i].kind == Number && i + 1 < |ts|
      ensures ts[i + 1].kind in {Comma, RightBracket, RightBrace}
    {
      assert i + 1 < |a| ==> a[i].kind == Number;
      assert i >= |a| ==> b[i - |a|].kind == Number && ts[i + 1] == b[i - |a| + 1];
    }
  }

  lemma {:induction false} DocNumbersEnd(d: Doc)
    ensures NumbersEnd(TokensOf(d))
    decreases d, 0
  {
    hide NumbersEnd;
    if d.ArrayDoc? {
      InArrayEnds(d.elements);
      SingleEnds(OPEN_BRACKET);
      NumbersEndJoined([OPEN_BRACKET], InArray(d.elements));
    } else if d.ObjectDoc? {
      InObjectEnds(d.members);
      SingleEnds(OPEN_BRACE);
      NumbersEndJoined([OPEN_BRACE], InObject(d.members));
    } else {
      SingleEnds(TokensOf(d)[0]);
    }
  }

  lemma KeyIsNoNumber(ps: seq<P.Piece>)
    ensures StringToken(ps).kind == String
  {}

  lemma SingleEnds(t: Token)
    ensures NumbersEnd([t])
  {}

  lemma {:induction false} InArrayEnds(ds: seq<Doc>)
    ensures NumbersEnd(InArray(ds)) && InArray(ds) != []
    decreases ds, 1
  {
    hide NumbersEnd, TokensOf;
    if ds == [] {
      SingleEnds(CLOSE_BRACKET);
    } else {
      DocNumbersEnd(ds[0]);
      MoreElementsEnd(ds[1..]);
      NumbersEndJoined(TokensOf(ds[0]), MoreElements(ds[1..]));
    }
  }

  lemma {:induction false} MoreElementsEnd(ds: seq<Doc>)
    ensures NumbersEnd(MoreElements(ds)) && MoreElements(ds) != [] && MoreElements(ds)[0].kind in {Comma, RightBracket}
    decreases ds, 2
  {
    hide NumbersEnd, InArray;
    SingleEnds(CLOSE_BRACKET);
    InArrayEnds(ds);
    SingleEnds(COMMA);
    NumbersEndJoined([COMMA], InArray(ds));
  }

  lemma {:induction false} MemberNumbersEnd(m: DocMember)
    ensures NumbersEnd(TokensOfMember(m)) && TokensOfMember(m) != []
    decreases m, 0
  {
    hide NumbersEnd, TokensOf, StringToken;
    DocNumbersEnd(m.value);
    SingleEnds(StringToken(m.key));
    SingleEnds(COLON);
    KeyIsNoNumber(m.key);
    NumbersEndJoined([StringToken(m.key)], [COLON]);
    assert [StringToken(m.key)] + [COLON] == [StringToken(m.key), COLON];
    NumbersEndJoined([StringToken(m.key), COLON], TokensOf(m.value));
  }

  lemma {:induction false} InObjectEnds(ms: seq<DocMember>)
    ensures NumbersEnd(InObject(ms)) && InObject(ms) != []
    decreases ms, 1
  {
    hide NumbersEnd, TokensOfMember;
    if ms == [] {
      SingleEnds(CLOSE_BRACE);
    } else {
      MemberNumbersEnd(ms[0]);
      MoreMembersEnd(ms[1..]);
      NumbersEndJoined(TokensOfMember(ms[0]), MoreMembers(ms[1..]));
    }
  }

  lemma {:induction false} MoreMembersEnd(ms: seq<DocMember>)
    ensures NumbersEnd(MoreMembers(ms)) && MoreMembers(ms) != [] && MoreMembers(ms)[0].kind in {Comma, RightBrace}
    decreases ms, 2
  {
    hide NumbersEnd, InObject;
    SingleEnds(CLOSE_BRACE);
    InObjectEnds(ms);
    SingleEnds(COMMA);
    NumbersEndJoined([COMMA], InObject(ms));
  }
}
