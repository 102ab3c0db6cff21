/** The decoder object: it advances its lexer in place and raises `needsFallback` on an escaped string. */
module KalshiDecoderObject {
  import opened Text
  import opened JsonLexing
  import opened KalshiMessages
  import opened Spec = KalshiDecoding
  import JsonTree
  import JsonParsing
  import DecoderAgreement

  class Decoder {
    const lexer: JsonLexer
    var needsFallback: bool

    ghost predicate Ready()
      reads this, lexer
    {
      lexer.Valid() && !needsFallback
    }

    /** The outcome of a method against the decoder as a function: the sink it hands back, the position
        and the fallback flag it leaves behind. */
    ghost predicate Computes(r: Option<Sink>, spec: Walk)
      reads this, lexer
    {
      && lexer.Valid()
      && match spec
         case Walked(sink, next) => r == Some(sink) && lexer.pos == next && !needsFallback
         case Failed => r.None? && !needsFallback
         case Escaped => r.None? && needsFallback
    }

    ghost predicate Pulls(r: Option<Token>, spec: Pulled)
      reads this, lexer
    {
      && lexer.Valid()
      && match spec
         case Pulled(token, next) => r == Some(token) && lexer.pos == next && !needsFallback
         case PullFailed => r.None? && !needsFallback
         case PullEscaped => r.None? && needsFallback
    }

    constructor (bytes: string)
      ensures fresh(lexer) && Ready() && lexer.input == bytes && lexer.pos == 0
    {
      lexer := new JsonLexer(bytes);
      needsFallback := false;
    }

    method Next() returns (token: Option<Token>)
      requires Ready()
      modifies this, lexer
      ensures old(lexer.pos) <= lexer.pos
      ensures Pulls(token, Pull(lexer.input, old(lexer.pos)))
    {
      token := lexer.Next();
      if token.Some? && token.value.kind == String && token.value.hasEscapes {
        needsFallback := true;
        return None;
      }
    }

    method AfterColon() returns (first: Option<Token>)
      requires Ready()
      modifies this, lexer
      ensures old(lexer.pos) <= lexer.pos
      ensures Pulls(first, PullAfterColon(lexer.input, old(lexer.pos)))
    {
      var colon := Next();
      if colon.None? || colon.value.kind != Colon { return None; }
      first := Next();
    }

    /** After a member or element: `done` at the closing token, else the token after a comma. */
    method Separator(closing: TokenKind) returns (done: bool, token: Option<Token>)
      requires Ready()
      modifies this, lexer
      ensures old(lexer.pos) <= lexer.pos
      ensures match PullSeparator(lexer.input, old(lexer.pos), closing)
              case Stopped(end) => done && lexer.Valid() && lexer.pos == end && !needsFallback
              case Next(pulled) => !done && Pulls(token, pulled)
    {
      token := Next();
      if token.None? { return false, None; }
      if token.value.kind == closing { return true, None; }
      if token.value.kind != Comma { return false, None; }
      token := Next();
      done := false;
    }

    method ForEachMember(sink: Sink, depth: nat) returns (r: Option<Sink>)
      requires Ready()
      modifies this, lexer
      ensures old(lexer.pos) <= lexer.pos
      ensures Computes(r, Spec.ForEachMember(lexer.input, sink, old(lexer.pos), depth))
      decreases |lexer.input| - lexer.pos, 2
    {
      ghost var s, start := lexer.input, lexer.pos;
      var next := Next();
      if next.None? { return None; }
      if next.value.kind == RightBrace { return Some(sink); }
      var token, current := next.value, sink;
      while true
        invariant Ready() && start <= lexer.pos
        invariant token.kind != End ==> start < lexer.pos
        invariant Spec.ForEachMember(s, sink, start, depth) == WalkMembers(s, current, token, lexer.pos, depth)
        decreases |s| - lexer.pos
      {
        if token.kind != String { return None; }
        var first := AfterColon();
        if first.None? { return None; }
        var taken := TakeMember(current, token.text, first.value, depth);
        if taken.None? { return None; }
        current := taken.value;
        var done, following := Separator(RightBrace);
        if done { return Some(current); }
        if following.None? { return None; }
        token := following.value;
      }
    }

    method ForEachElement(sink: Sink, depth: nat) returns (r: Option<Sink>)
      requires Ready()
      modifies this, lexer
      ensures old(lexer.pos) <= lexer.pos
      ensures Computes(r, Spec.ForEachElement(lexer.input, sink, old(lexer.pos), depth))
      decreases |lexer.input| - lexer.pos, 2
    {
      ghost var s, start := lexer.input, lexer.pos;
      var next := Next();
      if next.None? { return None; }
      if next.value.kind == RightBracket { return Some(sink); }
      if next.value.kind == End { return None; }
      var token, current := next.value, sink;
      while true
        invariant Ready() && start < lexer.pos
        invariant Spec.ForEachElement(s, sink, start, depth) == WalkElements(s, current, token, lexer.pos, depth)
        decreases |s| - lexer.pos
      {
        var taken := TakeElement(current, token, depth);
        if taken.None? { return None; }
        current := taken.value;
        var done, following := Separator(RightBracket);
        if done { return Some(current); }
        if following.None? { return None; }
        token := following.value;
      }
    }

    method SkipValue(first: Token, depth: nat) returns (r: Option<Sink>)
      requires Ready()
      modifies this, lexer
      ensures old(lexer.pos) <= lexer.pos
      ensures Computes(r, Spec.SkipValue(lexer.input, first, old(lexer.pos), depth))
      decreases |lexer.input| - lexer.pos, 3
    {
      match first.kind
      case String | Number | True | False | Null => return Some(Skip);
      case LeftBrace =>
        if depth >= JsonTree.MAX_DEPTH { return None; }
        r := ForEachMember(Skip, depth + 1);
      case LeftBracket =>
        if depth >= JsonTree.MAX_DEPTH { return None; }
        r := ForEachElement(Skip, depth + 1);
      case _ => return None;
    }

    method WalkLevels(field: LevelsField, token: Token, depth: nat) returns (r: Option<Sink>)
      requires Ready()
      modifies this, lexer
      ensures old(lexer.pos) <= lexer.pos
      ensures Computes(r, Spec.WalkLevels(lexer.input, field, token, old(lexer.pos), depth))
      decreases |lexer.input| - lexer.pos, 4
    {
      if field.seen || token.kind != LeftBracket {
        r := SkipValue(token, depth);
        return if r.Some? then Some(Levels(field.(seen := true))) else None;
      }
      if depth >= JsonTree.MAX_DEPTH { return None; }
      r := ForEachElement(Levels(field.(seen := true, present := true)), depth + 1);
    }

    method TakeElement(sink: Sink, token: Token, depth: nat) returns (r: Option<Sink>)
      requires Ready()
      modifies this, lexer
      ensures old(lexer.pos) <= lexer.pos
      ensures Computes(r, Spec.TakeElement(lexer.input, sink, token, old(lexer.pos), depth))
      decreases |lexer.input| - lexer.pos, 5
    {
      match sink
      case Levels(field) =>
        if token.kind != LeftBracket {
          r := SkipValue(token, depth);
          return if r.Some? then Some(Levels(field.(valid := false))) else None;
        }
        if depth >= JsonTree.MAX_DEPTH { return None; }
        r := ForEachElement(Pair(NO_PAIR), depth + 1);
        return if r.Some? then Some(Levels(TakeLevel(field, r.value.pair))) else None;
      case Pair(pair) =>
        if IsText(token.kind) { return Some(Pair(TakeText(pair, token.text))); }
        r := SkipValue(token, depth);
        return if r.Some? then Some(Pair(TakeOther(pair))) else None;
      case _ =>
        r := SkipValue(token, depth);
        return if r.Some? then Some(sink) else None;
    }

    method TakeMember(sink: Sink, key: string, token: Token, depth: nat) returns (r: Option<Sink>)
      requires Ready()
      modifies this, lexer
      ensures old(lexer.pos) <= lexer.pos
      ensures Computes(r, Spec.TakeMember(lexer.input, sink, key, token, old(lexer.pos), depth))
      decreases |lexer.input| - lexer.pos, 6
    {
      match sink
      case Root(f) => r := TakeRootMember(f, key, token, depth);
      case Msg(m) => r := TakeMsgMember(m, key, token, depth);
      case _ =>
        r := SkipValue(token, depth);
        return if r.Some? then Some(sink) else None;
    }

    method TakeMsgMember(m: MsgFields, key: string, token: Token, depth: nat) returns (r: Option<Sink>)
      requires Ready()
      modifies this, lexer
      ensures old(lexer.pos) <= lexer.pos
      ensures Computes(r, Spec.TakeMsgMember(lexer.input, m, key, token, old(lexer.pos), depth))
      decreases |lexer.input| - lexer.pos, 5
    {
      if IsMsgKey(key) {
        var field := TakeScalar(ScalarAt(m.scalars, key), token);
        r := SkipValue(token, depth);
        return if r.Some? then Some(Msg(m.(scalars := m.scalars[key := field]))) else None;
      } else if key == "yes_dollars_fp" {
        r := WalkLevels(m.yes, token, depth);
        return if r.Some? then Some(Msg(m.(yes := r.value.field))) else None;
      } else if key == "no_dollars_fp" {
        r := WalkLevels(m.no, token, depth);
        return if r.Some? then Some(Msg(m.(no := r.value.field))) else None;
      }
      r := SkipValue(token, depth);
      return if r.Some? then Some(Msg(m)) else None;
    }

    method TakeRootMember(f: Fields, key: string, token: Token, depth: nat) returns (r: Option<Sink>)
      requires Ready()
      modifies this, lexer
      ensures old(lexer.pos) <= lexer.pos
      ensures Computes(r, Spec.TakeRootMember(lexer.input, f, key, token, old(lexer.pos), depth))
      decreases |lexer.input| - lexer.pos, 5
    {
      var f' := f;
      if IsRootKey(key) {
        f' := f.(scalars := f.scalars[key := TakeScalar(ScalarAt(f.scalars, key), token)]);
      } else if key == "msg" && !f.msgSeen {
        if token.kind == LeftBrace {
          if depth >= JsonTree.MAX_DEPTH { return None; }
          r := ForEachMember(Msg(f.msg), depth + 1);
          return if r.Some? then Some(Root(f.(msgSeen := true, msgIsObject := true, msg := r.value.msg))) else None;
        }
        f' := f.(msgSeen := true);
      }
      r := SkipValue(token, depth);
      return if r.Some? then Some(Root(f')) else None;
    }

    method Decode() returns (r: Option<Sink>)
      requires Ready() && lexer.pos == 0
      modifies this, lexer
      ensures Computes(r, Spec.Decode(lexer.input))
    {
      var first := Next();
      if first.None? { return None; }
      if first.value.kind == LeftBrace {
        r := ForEachMember(Root(NO_FIELDS), 1);
      } else {
        r := SkipValue(first.value, 0);
      }
      if r.None? { return; }
      var end := Next();
      if end.None? || end.value.kind != End || !r.value.Root? { return None; }
    }
  }

  /** The method the bot calls on every text frame: its result is the tree-based path's result. */
  method DecodeMessage(bytes: string) returns (r: Option<Message>)
    ensures r == ThroughTree(bytes)
  {
    DecoderAgreement.DecoderRefinesTree(bytes);
    var decoder := new Decoder(bytes);
    var root := decoder.Decode();
    if root.Some? { return Build(root.value.fields); }
    if !decoder.needsFallback { return None; }
    var json := JsonParsing.ParseJson(bytes);
    return if json.Some? then ParseKalshiMessage(json.value) else None;
  }
}
