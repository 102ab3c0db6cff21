/** The parser object: recursive descent over a lexer that it advances in place. */
module JsonParsing {
  import opened Text
  import opened JsonLexing
  import opened JsonStrings
  import Tree = JsonTree

  type JsonValue = Tree.JsonValue
  type Member = Tree.Member

  predicate Validated(token: Token) { token.kind == String ==> StringBody(token.text) }

  /** What a method returned and where it left the lexer, against the parser as a function. */
  ghost predicate Computes<T>(r: Option<T>, pos: nat, spec: Tree.Parsed<T>) {
    if r.Some? then spec == Tree.Parsed(r.value, pos) else spec.Rejected?
  }

  class Parser {
    const lexer: JsonLexer

    constructor (text: string)
      ensures fresh(lexer) && lexer.Valid() && lexer.input == text && lexer.pos == 0
    {
      lexer := new JsonLexer(text);
    }

    method StringValue(token: Token) returns (r: Option<string>)
      requires token.kind == String && Validated(token)
      ensures r == Tree.StringValue(token)
    {
      if !token.hasEscapes { return Some(token.text); }
      r := DecodeJsonString(token.text);
    }

    method ParseValue(token: Token, depth: nat) returns (r: Option<JsonValue>)
      requires lexer.Valid() && Validated(token)
      modifies lexer
      ensures lexer.Valid() && old(lexer.pos) <= lexer.pos
      ensures Computes(r, lexer.pos, Tree.ParseValue(lexer.input, token, old(lexer.pos), depth))
      decreases |lexer.input| - lexer.pos, 3
    {
      match token.kind
      case LeftBrace =>
        if depth >= Tree.MAX_DEPTH { return None; }
        var ms := ParseObject(depth + 1);
        return if ms.Some? then Some(Tree.JObject(ms.value)) else None;
      case LeftBracket =>
        if depth >= Tree.MAX_DEPTH { return None; }
        var vs := ParseArray(depth + 1);
        return if vs.Some? then Some(Tree.JArray(vs.value)) else None;
      case String =>
        var t := StringValue(token);
        return if t.Some? then Some(Tree.JText(t.value)) else None;
      case Number => return Some(Tree.JText(token.text));
      case True => return Some(Tree.JBool(true));
      case False => return Some(Tree.JBool(false));
      case Null => return Some(Tree.JNull);
      case _ => return None;
    }

    method AfterColon() returns (first: Option<Token>)
      requires lexer.Valid()
      modifies lexer
      ensures lexer.Valid() && old(lexer.pos) <= lexer.pos
      ensures first.Some? ==> Tree.AfterColon(lexer.input, old(lexer.pos)) == Lexed(first.value, lexer.pos)
      ensures first.Some? ==> Validated(first.value)
      ensures first.None? ==> Tree.AfterColon(lexer.input, old(lexer.pos)).Bad?
    {
      var colon := lexer.Next();
      if colon.None? || colon.value.kind != Colon { return None; }
      first := lexer.Next();
    }

    method Separator(closing: TokenKind) returns (sep: Tree.Separation)
      requires lexer.Valid()
      modifies lexer
      ensures lexer.Valid() && old(lexer.pos) <= lexer.pos
      ensures sep == Tree.Separator(lexer.input, old(lexer.pos), closing)
      ensures sep.Stop? ==> sep.end == lexer.pos
      ensures sep.More? ==> sep.next == lexer.pos && Validated(sep.token)
    {
      var token := lexer.Next();
      if token.None? { return Tree.Wrong; }
      if token.value.kind == closing { return Tree.Stop(lexer.pos); }
      if token.value.kind != Comma { return Tree.Wrong; }
      token := lexer.Next();
      return if token.Some? then Tree.More(token.value, lexer.pos) else Tree.Wrong;
    }

    method ParseObject(depth: nat) returns (r: Option<seq<Member>>)
      requires lexer.Valid()
      modifies lexer
      ensures lexer.Valid() && old(lexer.pos) <= lexer.pos
      ensures Computes(r, lexer.pos, Tree.ParseObject(lexer.input, old(lexer.pos), depth))
      decreases |lexer.input| - lexer.pos, 2
    {
      ghost var s, start := lexer.input, lexer.pos;
      var ms: seq<Member> := [];
      var next := lexer.Next();
      if next.None? { return None; }
      var token := next.value;
      if token.kind == RightBrace { return Some(ms); }

      while true
        invariant lexer.Valid() && start <= lexer.pos && Validated(token)
        invariant token.kind != End ==> start < lexer.pos
        invariant Tree.ParseObject(s, start, depth) == Tree.ParseMembers(s, token, lexer.pos, depth, ms)
        decreases |s| - lexer.pos
      {
        if token.kind != String { return None; }
        var key := StringValue(token);
        if key.None? { return None; }

        var first := AfterColon();
        if first.None? { return None; }
        var value := ParseValue(first.value, depth);
        if value.None? { return None; }
        ms := Tree.Emplace(ms, Tree.Member(key.value, value.value));

        var sep := Separator(RightBrace);
        if sep.Wrong? { return None; }
        if sep.Stop? { return Some(ms); }
        token := sep.token;
      }
    }

    method ParseArray(depth: nat) returns (r: Option<seq<JsonValue>>)
      requires lexer.Valid()
      modifies lexer
      ensures lexer.Valid() && old(lexer.pos) <= lexer.pos
      ensures Computes(r, lexer.pos, Tree.ParseArray(lexer.input, old(lexer.pos), depth))
      decreases |lexer.input| - lexer.pos, 2
    {
      ghost var s, start := lexer.input, lexer.pos;
      var vs: seq<JsonValue> := [];
      var next := lexer.Next();
      if next.None? { return None; }
      var token := next.value;
      if token.kind == RightBracket { return Some(vs); }
      if token.kind == End { return None; }

      while true
        invariant lexer.Valid() && start < lexer.pos && Validated(token)
        invariant Tree.ParseArray(s, start, depth) == Tree.ParseElements(s, token, lexer.pos, depth, vs)
        decreases |s| - lexer.pos
      {
        var value := ParseValue(token, depth);
        if value.None? { return None; }
        vs := vs + [value.value];

        var sep := Separator(RightBracket);
        if sep.Wrong? { return None; }
        if sep.Stop? { return Some(vs); }
        token := sep.token;
      }
    }

    method Parse() returns (r: Option<JsonValue>)
      requires lexer.Valid() && lexer.pos == 0
      modifies lexer
      ensures r == Tree.ParseJson(lexer.input)
    {
      var first := lexer.Next();
      if first.None? { return None; }
      r := ParseValue(first.value, 0);
      if r.None? { return; }
      var end := lexer.Next();
      if end.None? || end.value.kind != End { return None; }
    }
  }

  method ParseJson(text: string) returns (r: Option<JsonValue>)
    ensures r == Tree.ParseJson(text)
  {
    var parser := new Parser(text);
    r := parser.Parse();
  }
}
