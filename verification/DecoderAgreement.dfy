/** The tree-free decoder and the tree-based path agree on every input. The two walk the input in
    lockstep until the first escaped string, and what a sink holds is at every step what the tree
    built so far would yield for its fields. */
module DecoderAgreement {
  import opened Text
  import opened JsonLexing
  import opened JsonTree
  import opened KalshiMessages
  import opened KalshiDecoding

  /** Lockstep: both fail, or both stop at the same position; an escape leaves the parser free. */
  predicate Agree<T>(w: Walk, p: Parsed<T>) {
    match w
    case Escaped => true
    case Failed => p.Rejected?
    case Walked(_, next) => p.Parsed? && p.next == next
  }

  // ---- sinks and trees

  predicate ScalarMatches(field: Scalar, ms: seq<Member>, key: string) {
    field.seen == Find(ms, key).Some? && field.value == GetString(ms, key)
  }

  predicate ScalarsMatch(scalars: Scalars, ms: seq<Member>, key: string) {
    ScalarMatches(ScalarAt(scalars, key), ms, key)
  }

  predicate LevelsMatch(field: LevelsField, vs: seq<JsonValue>) {
    && field.seen && field.present
    && field.valid == PriceLevels(vs).Some?
    && (field.valid ==> field.levels == PriceLevels(vs).value)
  }

  predicate SideMatches(field: LevelsField, ms: seq<Member>, key: string) {
    && field.seen == Find(ms, key).Some?
    && match GetArray(ms, key)
       case Some(vs) => LevelsMatch(field, vs)
       case None => field == NO_LEVELS.(seen := field.seen)
  }

  ghost predicate MsgMatches(m: MsgFields, ms: seq<Member>) {
    && (forall key :: IsMsgKey(key) ==> ScalarsMatch(m.scalars, ms, key))
    && SideMatches(m.yes, ms, "yes_dollars_fp")
    && SideMatches(m.no, ms, "no_dollars_fp")
  }

  ghost predicate RootMatches(f: Fields, ms: seq<Member>) {
    && (forall key :: IsRootKey(key) ==> ScalarsMatch(f.scalars, ms, key))
    && f.msgSeen == Find(ms, "msg").Some?
    && f.msgIsObject == GetObject(ms, "msg").Some?
    && if f.msgIsObject then MsgMatches(f.msg, GetObject(ms, "msg").value) else f.msg == NO_MSG
  }

  ghost predicate ObjectMatches(sink: Sink, ms: seq<Member>) {
    match sink
    case Root(f) => RootMatches(f, ms)
    case Msg(m) => MsgMatches(m, ms)
    case _ => true
  }

  predicate PairMatches(p: PairState, vs: seq<JsonValue>) {
    && p.count == |vs|
    && (p.allText ==> forall i :: 0 <= i < |vs| ==> vs[i].JText?)
    && (!p.allText ==> exists i :: 0 <= i < |vs| && !vs[i].JText?)
    && (p.allText && |vs| > 0 ==> vs[0] == JText(p.first))
    && (p.allText && |vs| > 1 ==> vs[1] == JText(p.second))
  }

  ghost predicate ArrayMatches(sink: Sink, vs: seq<JsonValue>) {
    match sink
    case Levels(field) => LevelsMatch(field, vs)
    case Pair(pair) => PairMatches(pair, vs)
    case _ => true
  }

  // ---- one more value keeps the match

  lemma KeysAreDistinct()
    ensures forall key :: IsMsgKey(key) ==> key != "yes_dollars_fp" && key != "no_dollars_fp"
    ensures !IsRootKey("msg")
    ensures "yes_dollars_fp" != "no_dollars_fp"
  {
    assert |"yes_dollars_fp"| == 14 && |"no_dollars_fp"| == 13;
    assert "no_dollars_fp"[0] == 'n' && "market_ticker"[0] == 'm' && "price_dollars"[0] == 'p';
    assert "msg"[0] == 'm' && "sid"[0] == 's' && "seq"[0] == 's';
  }

  /** What a first token without escapes says about the value that starts with it. */
  lemma FirstToken(s: string, token: Token, pos: nat, depth: nat)
    requires pos <= |s| && !token.hasEscapes && ParseValue(s, token, pos, depth).Parsed?
    ensures var v := ParseValue(s, token, pos, depth).value;
      && v.JText? == IsText(token.kind)
      && (v.JText? ==> v.text == token.text)
      && v.JArray? == (token.kind == LeftBracket)
      && v.JObject? == (token.kind == LeftBrace)
  {}

  lemma ScalarStep(scalars: Scalars, ms: seq<Member>, key: string, token: Token, v: JsonValue, other: string)
    requires ScalarsMatch(scalars, ms, other)
    requires v.JText? == IsText(token.kind) && (v.JText? ==> v.text == token.text)
    ensures ScalarsMatch(scalars[key := TakeScalar(ScalarAt(scalars, key), token)], Emplace(ms, Member(key, v)), other)
    ensures other != key ==> ScalarsMatch(scalars, Emplace(ms, Member(key, v)), other)
  {
    FindEmplace(ms, Member(key, v), other);
  }

  lemma SideStep(field: LevelsField, ms: seq<Member>, m: Member, key: string)
    requires SideMatches(field, ms, key)
    ensures key != m.key || field.seen ==> SideMatches(field, Emplace(ms, m), key)
    ensures key == m.key && !field.seen && !m.value.JArray? ==> SideMatches(field.(seen := true), Emplace(ms, m), key)
    ensures forall f :: key == m.key && !field.seen && m.value.JArray? && LevelsMatch(f, m.value.elements)
                    ==> SideMatches(f, Emplace(ms, m), key)
  {
    FindEmplace(ms, m, key);
  }

  lemma ScalarsStep(scalars: Scalars, ms: seq<Member>, key: string, token: Token, v: JsonValue)
    requires v.JText? == IsText(token.kind) && (v.JText? ==> v.text == token.text)
    ensures var scalars' := scalars[key := TakeScalar(ScalarAt(scalars, key), token)];
      forall other :: ScalarsMatch(scalars, ms, other) ==> ScalarsMatch(scalars', Emplace(ms, Member(key, v)), other)
  {
    forall other | ScalarsMatch(scalars, ms, other) {
      ScalarStep(scalars, ms, key, token, v, other);
    }
  }

  lemma ScalarsFrame(scalars: Scalars, ms: seq<Member>, m: Member)
    ensures forall other :: ScalarsMatch(scalars, ms, other) && other != m.key ==> ScalarsMatch(scalars, Emplace(ms, m), other)
  {
    forall other | ScalarsMatch(scalars, ms, other) && other != m.key {
      FindEmplace(ms, m, other);
    }
  }

  // ---- lockstep

  lemma {:induction false} ValueAgrees(s: string, token: Token, pos: nat, depth: nat)
    requires pos <= |s| && !token.hasEscapes
    ensures Agree(SkipValue(s, token, pos, depth), ParseValue(s, token, pos, depth))
    decreases |s| - pos, 3
  {
    if token.kind == LeftBrace && depth < MAX_DEPTH {
      ObjectAgrees(s, Skip, pos, depth + 1);
    } else if token.kind == LeftBracket && depth < MAX_DEPTH {
      ArrayAgrees(s, Skip, pos, depth + 1);
    }
  }

  lemma {:induction false} ObjectAgrees(s: string, sink: Sink, pos: nat, depth: nat)
    requires pos <= |s| && ObjectMatches(sink, [])
    ensures Agree(ForEachMember(s, sink, pos, depth), ParseObject(s, pos, depth))
    ensures ForEachMember(s, sink, pos, depth).Walked?
        ==> ObjectMatches(ForEachMember(s, sink, pos, depth).sink, ParseObject(s, pos, depth).value)
    decreases |s| - pos, 2
  {
    var r := Pull(s, pos);
    if r.Pulled? && r.token.kind != RightBrace {
      MembersAgree(s, sink, r.token, r.next, depth, []);
    }
  }

  lemma {:induction false} MembersAgree(s: string, sink: Sink, token: Token, pos: nat, depth: nat, ms: seq<Member>)
    requires pos <= |s| && !token.hasEscapes && ObjectMatches(sink, ms)
    ensures Agree(WalkMembers(s, sink, token, pos, depth), ParseMembers(s, token, pos, depth, ms))
    ensures WalkMembers(s, sink, token, pos, depth).Walked?
        ==> ObjectMatches(WalkMembers(s, sink, token, pos, depth).sink, ParseMembers(s, token, pos, depth, ms).value)
    decreases |s| - pos, 1
  {
    var r := PullAfterColon(s, pos);
    if token.kind == String && r.Pulled? {
      assert AfterColon(s, pos) == Lexed(r.token, r.next);
      MemberAgrees(s, sink, token.text, r.token, r.next, depth, ms);
      var w := TakeMember(s, sink, token.text, r.token, r.next, depth);
      if w.Walked? {
        SeparatorAgrees(s, w.next, RightBrace);
        var sep := PullSeparator(s, w.next, RightBrace);
        var v := ParseValue(s, r.token, r.next, depth).value;
        if sep.Next? && sep.token.Pulled? {
          MembersAgree(s, w.sink, sep.token.token, sep.token.next, depth, Emplace(ms, Member(token.text, v)));
        }
      }
    }
  }

  lemma SeparatorAgrees(s: string, pos: nat, closing: TokenKind)
    requires pos <= |s| && closing != String
    ensures match PullSeparator(s, pos, closing)
            case Stopped(end) => Separator(s, pos, closing) == Stop(end)
            case Next(Pulled(token, next)) => Separator(s, pos, closing) == More(token, next) && !token.hasEscapes
            case Next(PullFailed) => Separator(s, pos, closing) == Wrong
            case Next(PullEscaped) => true
  {}

  lemma {:induction false} ArrayAgrees(s: string, sink: Sink, pos: nat, depth: nat)
    requires pos <= |s| && ArrayMatches(sink, [])
    ensures Agree(ForEachElement(s, sink, pos, depth), ParseArray(s, pos, depth))
    ensures ForEachElement(s, sink, pos, depth).Walked?
        ==> ArrayMatches(ForEachElement(s, sink, pos, depth).sink, ParseArray(s, pos, depth).value)
    decreases |s| - pos, 2
  {
    var r := Pull(s, pos);
    if r.Pulled? && r.token.kind != RightBracket && r.token.kind != End {
      ElementsAgree(s, sink, r.token, r.next, depth, []);
    }
  }

  lemma {:induction false} ElementsAgree(s: string, sink: Sink, token: Token, pos: nat, depth: nat, vs: seq<JsonValue>)
    requires pos <= |s| && !token.hasEscapes && ArrayMatches(sink, vs)
    ensures Agree(WalkElements(s, sink, token, pos, depth), ParseElements(s, token, pos, depth, vs))
    ensures WalkElements(s, sink, token, pos, depth).Walked?
        ==> ArrayMatches(WalkElements(s, sink, token, pos, depth).sink, ParseElements(s, token, pos, depth, vs).value)
    decreases |s| - pos, 6
  {
    ElementAgrees(s, sink, token, pos, depth, vs);
    var w := TakeElement(s, sink, token, pos, depth);
    if w.Walked? {
      SeparatorAgrees(s, w.next, RightBracket);
      var sep := PullSeparator(s, w.next, RightBracket);
      var v := ParseValue(s, token, pos, depth).value;
      if sep.Next? && sep.token.Pulled? {
        ElementsAgree(s, w.sink, sep.token.token, sep.token.next, depth, vs + [v]);
      }
    }
  }

  lemma {:induction false} ElementAgrees(s: string, sink: Sink, token: Token, pos: nat, depth: nat, vs: seq<JsonValue>)
    requires pos <= |s| && !token.hasEscapes && ArrayMatches(sink, vs)
    ensures Agree(TakeElement(s, sink, token, pos, depth), ParseValue(s, token, pos, depth))
    ensures TakeElement(s, sink, token, pos, depth).Walked?
        ==> ArrayMatches(TakeElement(s, sink, token, pos, depth).sink, vs + [ParseValue(s, token, pos, depth).value])
    decreases |s| - pos, 5
  {
    ValueAgrees(s, token, pos, depth);
    if sink.Levels? && token.kind == LeftBracket && depth < MAX_DEPTH {
      ArrayAgrees(s, Pair(NO_PAIR), pos, depth + 1);
    }
    var w := TakeElement(s, sink, token, pos, depth);
    if w.Walked? {
      var v := ParseValue(s, token, pos, depth).value;
      FirstToken(s, token, pos, depth);
      if sink.Levels? {
        LevelStep(sink.field, vs, v);
      } else if sink.Pair? {
        PairStep(sink.pair, vs, v);
      }
    }
  }

  lemma LevelStep(field: LevelsField, vs: seq<JsonValue>, v: JsonValue)
    requires LevelsMatch(field, vs)
    ensures LevelOf(v).None? ==> LevelsMatch(field.(valid := false), vs + [v])
    ensures forall p :: v.JArray? && PairMatches(p, v.elements) ==> LevelsMatch(TakeLevel(field, p), vs + [v])
  {
    assert (vs + [v])[..|vs|] == vs;
    assert PriceLevels(vs + [v]) ==
      match (PriceLevels(vs), LevelOf(v)) { case (Some(levels), Some(level)) => Some(levels + [level]) case _ => None };
  }

  lemma PairStep(p: PairState, vs: seq<JsonValue>, v: JsonValue)
    requires PairMatches(p, vs)
    ensures v.JText? ==> PairMatches(TakeText(p, v.text), vs + [v])
    ensures !v.JText? ==> PairMatches(TakeOther(p), vs + [v])
  {
    var us := vs + [v];
    assert us[|vs|] == v && forall i :: 0 <= i < |vs| ==> us[i] == vs[i];
  }

  lemma {:induction false} MemberAgrees(s: string, sink: Sink, key: string, token: Token, pos: nat, depth: nat, ms: seq<Member>)
    requires pos <= |s| && !token.hasEscapes && ObjectMatches(sink, ms)
    ensures Agree(TakeMember(s, sink, key, token, pos, depth), ParseValue(s, token, pos, depth))
    ensures TakeMember(s, sink, key, token, pos, depth).Walked?
        ==> ObjectMatches(TakeMember(s, sink, key, token, pos, depth).sink,
                          Emplace(ms, Member(key, ParseValue(s, token, pos, depth).value)))
    decreases |s| - pos, 6
  {
    match sink
    case Root(f) => RootMemberAgrees(s, f, key, token, pos, depth, ms);
    case Msg(m) => MsgMemberAgrees(s, m, key, token, pos, depth, ms);
    case _ => ValueAgrees(s, token, pos, depth);
  }

  lemma {:induction false} LevelsAgree(
    s: string, field: LevelsField, key: string, token: Token, pos: nat, depth: nat, ms: seq<Member>)
    requires pos <= |s| && !token.hasEscapes && SideMatches(field, ms, key)
    ensures Agree(WalkLevels(s, field, token, pos, depth), ParseValue(s, token, pos, depth))
    ensures WalkLevels(s, field, token, pos, depth).Walked?
        ==> SideMatches(WalkLevels(s, field, token, pos, depth).sink.field,
                        Emplace(ms, Member(key, ParseValue(s, token, pos, depth).value)), key)
    decreases |s| - pos, 4
  {
    ValueAgrees(s, token, pos, depth);
    if !field.seen && token.kind == LeftBracket && depth < MAX_DEPTH {
      ArrayAgrees(s, Levels(field.(seen := true, present := true)), pos, depth + 1);
    }
    var w := WalkLevels(s, field, token, pos, depth);
    if w.Walked? {
      var v := ParseValue(s, token, pos, depth).value;
      FirstToken(s, token, pos, depth);
      SideStep(field, ms, Member(key, v), key);
    }
  }

  lemma {:induction false} MsgMemberAgrees(
    s: string, m: MsgFields, key: string, token: Token, pos: nat, depth: nat, ms: seq<Member>)
    requires pos <= |s| && !token.hasEscapes && MsgMatches(m, ms)
    ensures Agree(TakeMsgMember(s, m, key, token, pos, depth), ParseValue(s, token, pos, depth))
    ensures TakeMsgMember(s, m, key, token, pos, depth).Walked?
        ==> MsgMatches(TakeMsgMember(s, m, key, token, pos, depth).sink.msg,
                       Emplace(ms, Member(key, ParseValue(s, token, pos, depth).value)))
    decreases |s| - pos, 5
  {
    KeysAreDistinct();
    ValueAgrees(s, token, pos, depth);
    if key == "yes_dollars_fp" {
      LevelsAgree(s, m.yes, key, token, pos, depth, ms);
    } else if key == "no_dollars_fp" {
      LevelsAgree(s, m.no, key, token, pos, depth, ms);
    }
    var w := TakeMsgMember(s, m, key, token, pos, depth);
    if w.Walked? {
      var v := ParseValue(s, token, pos, depth).value;
      FirstToken(s, token, pos, depth);
      if key != "yes_dollars_fp" { SideStep(m.yes, ms, Member(key, v), "yes_dollars_fp"); }
      if key != "no_dollars_fp" { SideStep(m.no, ms, Member(key, v), "no_dollars_fp"); }
      if IsMsgKey(key) { ScalarsStep(m.scalars, ms, key, token, v); } else { ScalarsFrame(m.scalars, ms, Member(key, v)); }
    }
  }

  lemma {:induction false} RootMemberAgrees(
    s: string, f: Fields, key: string, token: Token, pos: nat, depth: nat, ms: seq<Member>)
    requires pos <= |s| && !token.hasEscapes && RootMatches(f, ms)
    ensures Agree(TakeRootMember(s, f, key, token, pos, depth), ParseValue(s, token, pos, depth))
    ensures TakeRootMember(s, f, key, token, pos, depth).Walked?
        ==> RootMatches(TakeRootMember(s, f, key, token, pos, depth).sink.fields,
                        Emplace(ms, Member(key, ParseValue(s, token, pos, depth).value)))
    decreases |s| - pos, 5
  {
    KeysAreDistinct();
    ValueAgrees(s, token, pos, depth);
    if key == "msg" && !f.msgSeen && token.kind == LeftBrace && depth < MAX_DEPTH {
      EmptyMatches();
      ObjectAgrees(s, Msg(f.msg), pos, depth + 1);
    }
    var w := TakeRootMember(s, f, key, token, pos, depth);
    if w.Walked? {
      var v := ParseValue(s, token, pos, depth).value;
      FirstToken(s, token, pos, depth);
      FindEmplace(ms, Member(key, v), "msg");
      if IsRootKey(key) { ScalarsStep(f.scalars, ms, key, token, v); } else { ScalarsFrame(f.scalars, ms, Member(key, v)); }
    }
  }

  lemma EmptyMatches()
    ensures MsgMatches(NO_MSG, []) && RootMatches(NO_FIELDS, [])
  {}

  // ---- the main result

  lemma BuildAgrees(f: Fields, ms: seq<Member>)
    requires RootMatches(f, ms)
    ensures Build(f) == ParseKalshiMessage(JObject(ms))
  {
    assert ScalarsMatch(f.scalars, ms, "type") && ScalarsMatch(f.scalars, ms, "sid") && ScalarsMatch(f.scalars, ms, "seq");
    var kind := GetString(ms, "type");
    if kind.Some? { BodyAgrees(kind.value, f, ms); }
  }

  lemma BodyAgrees(kind: string, f: Fields, ms: seq<Member>)
    requires RootMatches(f, ms)
    ensures BuildBody(kind, f) == ParseBody(kind, GetObject(ms, "msg"))
  {
    if f.msgIsObject {
      var msg := GetObject(ms, "msg").value;
      DeltaAgrees(f.msg, msg);
      SnapshotAgrees(f.msg, msg);
      FillAgrees(f.msg, msg);
    }
  }

  lemma DeltaAgrees(m: MsgFields, ms: seq<Member>)
    requires MsgMatches(m, ms)
    ensures BuildDelta(m) == ParseDelta(ms)
  {
    assert ScalarsMatch(m.scalars, ms, "market_ticker") && ScalarsMatch(m.scalars, ms, "market_id");
    assert ScalarsMatch(m.scalars, ms, "price_dollars") && ScalarsMatch(m.scalars, ms, "delta_fp");
    assert ScalarsMatch(m.scalars, ms, "side") && ScalarsMatch(m.scalars, ms, "ts") && ScalarsMatch(m.scalars, ms, "ts_ms");
  }

  lemma SnapshotAgrees(m: MsgFields, ms: seq<Member>)
    requires MsgMatches(m, ms)
    ensures BuildSnapshot(m) == ParseSnapshot(ms)
  {
    assert ScalarsMatch(m.scalars, ms, "market_ticker") && ScalarsMatch(m.scalars, ms, "market_id");
  }

  lemma FillAgrees(m: MsgFields, ms: seq<Member>)
    requires MsgMatches(m, ms)
    ensures BuildFill(m) == ParseFill(ms)
  {
    assert ScalarsMatch(m.scalars, ms, "market_ticker") && ScalarsMatch(m.scalars, ms, "order_id");
    assert ScalarsMatch(m.scalars, ms, "count_fp") && ScalarsMatch(m.scalars, ms, "action");
  }

  /** For every input the direct decoder accepts exactly what the tree-based path accepts, with the same message. */
  lemma DecoderRefinesTree(s: string)
    ensures DecodeKalshiMessage(s) == ThroughTree(s)
  {
    var first := Pull(s, 0);
    if first.Pulled? {
      if first.token.kind == LeftBrace {
        EmptyMatches();
        ObjectAgrees(s, Root(NO_FIELDS), first.next, 1);
        var w := ForEachMember(s, Root(NO_FIELDS), first.next, 1);
        if w.Walked? { BuildAgrees(w.sink.fields, ParseObject(s, first.next, 1).value); }
      } else {
        ValueAgrees(s, first.token, first.next, 0);
        if ParseValue(s, first.token, first.next, 0).Parsed? { FirstToken(s, first.token, first.next, 0); }
      }
    }
  }
}
