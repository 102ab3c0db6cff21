/** The tree-free decoder as a function of the input. The source hands closures to its two generic
    loops; here a `Sink` is such a closure together with the fields it captures by reference. */
module KalshiDecoding {
  import opened Text
  import opened JsonLexing
  import opened JsonTree
  import opened KalshiMessages

  /** First occurrence of a key: `value` is set only if that occurrence was a string or a number. */
  datatype Scalar = Scalar(seen: bool, value: Option<string>)

  datatype LevelsField = LevelsField(seen: bool, present: bool, valid: bool, levels: seq<PriceLevel>)

  /** The scalar members of the source's `Fields`, by key; an absent key is an untouched member. */
  type Scalars = map<string, Scalar>

  function ScalarAt(m: Scalars, key: string): Scalar { if key in m then m[key] else Scalar(false, None) }

  datatype MsgFields = MsgFields(scalars: Scalars, yes: LevelsField, no: LevelsField)
  datatype Fields = Fields(scalars: Scalars, msgSeen: bool, msgIsObject: bool, msg: MsgFields)
  datatype PairState = PairState(first: string, second: string, count: nat, allText: bool)

  const NO_LEVELS := LevelsField(false, false, true, [])
  const NO_MSG := MsgFields(map[], NO_LEVELS, NO_LEVELS)
  const NO_FIELDS := Fields(map[], false, false, NO_MSG)
  const NO_PAIR := PairState("", "", 0, true)

  predicate IsRootKey(key: string) { key == "type" || key == "sid" || key == "seq" }

  predicate IsMsgKey(key: string) {
    || key == "market_ticker" || key == "market_id" || key == "price_dollars" || key == "delta_fp"
    || key == "side" || key == "ts" || key == "ts_ms" || key == "order_id" || key == "count_fp" || key == "action"
  }

  datatype Sink =
    | Root(fields: Fields)
    | Msg(msg: MsgFields)
    | Levels(field: LevelsField)
    | Pair(pair: PairState)
    | Skip

  /** The decoder's `next`: an escaped string stops it and asks for the fallback. */
  datatype Pulled = Pulled(token: Token, next: nat) | PullFailed | PullEscaped

  function Pull(s: string, pos: nat): (r: Pulled)
    requires pos <= |s|
    ensures r.Pulled? ==> pos <= r.next <= |s| && (r.token.kind != End ==> pos < r.next)
  {
    match Lex(s, pos)
    case Bad => PullFailed
    case Lexed(token, next) => if token.kind == String && token.hasEscapes then PullEscaped else Pulled(token, next)
  }

  /** Where a walk over one value or one container ends, and what its sink holds then. */
  datatype Walk = Walked(sink: Sink, next: nat) | Failed | Escaped

  function Keep(sink: Sink, w: Walk): Walk { if w.Walked? then Walked(sink, w.next) else w }

  predicate SameKind(a: Sink, b: Sink) {
    a.Root? == b.Root? && a.Msg? == b.Msg? && a.Levels? == b.Levels? && a.Pair? == b.Pair?
  }

  predicate WalkFrom(s: string, sink: Sink, pos: nat, w: Walk) {
    w.Walked? ==> pos <= w.next <= |s| && SameKind(sink, w.sink)
  }

  predicate IsText(kind: TokenKind) { kind == String || kind == Number }

  // ---- the two generic loops

  function ForEachMember(s: string, sink: Sink, pos: nat, depth: nat): (w: Walk)
    requires pos <= |s|
    ensures WalkFrom(s, sink, pos, w)
    decreases |s| - pos, 2
  {
    match Pull(s, pos)
    case PullFailed => Failed
    case PullEscaped => Escaped
    case Pulled(token, next) =>
      if token.kind == RightBrace then Walked(sink, next) else WalkMembers(s, sink, token, next, depth)
  }

  function WalkMembers(s: string, sink: Sink, token: Token, pos: nat, depth: nat): (w: Walk)
    requires pos <= |s|
    ensures WalkFrom(s, sink, pos, w)
    decreases |s| - pos, 1
  {
    if token.kind != String then Failed
    else
      match PullAfterColon(s, pos)
      case PullFailed => Failed
      case PullEscaped => Escaped
      case Pulled(first, p) =>
        match TakeMember(s, sink, token.text, first, p, depth)
        case Failed => Failed
        case Escaped => Escaped
        case Walked(sink', q) =>
          match PullSeparator(s, q, RightBrace)
          case Stopped(end) => Walked(sink', end)
          case Next(PullFailed) => Failed
          case Next(PullEscaped) => Escaped
          case Next(Pulled(token', next)) => WalkMembers(s, sink', token', next, depth)
  }

  function PullAfterColon(s: string, pos: nat): (r: Pulled)
    requires pos <= |s|
    ensures r.Pulled? ==> pos < r.next <= |s|
  {
    match Pull(s, pos)
    case Pulled(colon, p) => if colon.kind == Colon then Pull(s, p) else PullFailed
    case other => other
  }

  datatype PulledSeparator = Stopped(end: nat) | Next(token: Pulled)

  function PullSeparator(s: string, pos: nat, closing: TokenKind): (r: PulledSeparator)
    requires pos <= |s|
    ensures r.Stopped? ==> pos <= r.end <= |s|
    ensures r.Next? && r.token.Pulled? ==> pos < r.token.next <= |s|
  {
    match Pull(s, pos)
    case Pulled(sep, p) =>
      if sep.kind == closing then Stopped(p) else if sep.kind == Comma then Next(Pull(s, p)) else Next(PullFailed)
    case other => Next(other)
  }

  function ForEachElement(s: string, sink: Sink, pos: nat, depth: nat): (w: Walk)
    requires pos <= |s|
    ensures WalkFrom(s, sink, pos, w)
    decreases |s| - pos, 2
  {
    match Pull(s, pos)
    case PullFailed => Failed
    case PullEscaped => Escaped
    case Pulled(token, next) =>
      if token.kind == RightBracket then Walked(sink, next)
      else if token.kind == End then Failed
      else WalkElements(s, sink, token, next, depth)
  }

  function WalkElements(s: string, sink: Sink, token: Token, pos: nat, depth: nat): (w: Walk)
    requires pos <= |s|
    ensures WalkFrom(s, sink, pos, w)
    decreases |s| - pos, 6
  {
    match TakeElement(s, sink, token, pos, depth)
    case Failed => Failed
    case Escaped => Escaped
    case Walked(sink', q) =>
      match PullSeparator(s, q, RightBracket)
      case Stopped(end) => Walked(sink', end)
      case Next(PullFailed) => Failed
      case Next(PullEscaped) => Escaped
      case Next(Pulled(token', next)) => WalkElements(s, sink', token', next, depth)
  }

  // ---- what the sinks do with one value

  /** Validates and discards one value, given its first token. */
  function SkipValue(s: string, token: Token, pos: nat, depth: nat): (w: Walk)
    requires pos <= |s|
    ensures WalkFrom(s, Skip, pos, w)
    decreases |s| - pos, 3
  {
    match token.kind
    case String => Walked(Skip, pos)
    case Number => Walked(Skip, pos)
    case True => Walked(Skip, pos)
    case False => Walked(Skip, pos)
    case Null => Walked(Skip, pos)
    case LeftBrace => if depth >= MAX_DEPTH then Failed else ForEachMember(s, Skip, pos, depth + 1)
    case LeftBracket => if depth >= MAX_DEPTH then Failed else ForEachElement(s, Skip, pos, depth + 1)
    case _ => Failed
  }

  /** The new state of a scalar field after one more occurrence of its key. */
  function TakeScalar(field: Scalar, token: Token): Scalar {
    if field.seen then field else Scalar(true, if IsText(token.kind) then Some(token.text) else None)
  }

  function WalkLevels(s: string, field: LevelsField, token: Token, pos: nat, depth: nat): (w: Walk)
    requires pos <= |s|
    ensures WalkFrom(s, Levels(field), pos, w)
    decreases |s| - pos, 4
  {
    if field.seen || token.kind != LeftBracket then
      Keep(Levels(field.(seen := true)), SkipValue(s, token, pos, depth))
    else if depth >= MAX_DEPTH then Failed
    else ForEachElement(s, Levels(field.(seen := true, present := true)), pos, depth + 1)
  }

  function TakeText(p: PairState, text: string): PairState {
    PairState(if p.count == 0 then text else p.first, if p.count == 1 then text else p.second, p.count + 1, p.allText)
  }

  function TakeOther(p: PairState): PairState { p.(count := p.count + 1, allText := false) }

  /** A level is recorded if its pair held exactly two texts, otherwise the whole side is invalid. */
  function TakeLevel(field: LevelsField, p: PairState): LevelsField {
    if p.count == 2 && p.allText then field.(levels := field.levels + [PriceLevel(p.first, p.second)])
    else field.(valid := false)
  }

  function TakeElement(s: string, sink: Sink, token: Token, pos: nat, depth: nat): (w: Walk)
    requires pos <= |s|
    ensures WalkFrom(s, sink, pos, w)
    decreases |s| - pos, 5
  {
    match sink
    case Levels(field) =>
      if token.kind != LeftBracket then
        Keep(Levels(field.(valid := false)), SkipValue(s, token, pos, depth))
      else if depth >= MAX_DEPTH then Failed
      else
        (match ForEachElement(s, Pair(NO_PAIR), pos, depth + 1)
         case Walked(inner, next) => Walked(Levels(TakeLevel(field, inner.pair)), next)
         case other => other)
    case Pair(pair) =>
      if IsText(token.kind) then Walked(Pair(TakeText(pair, token.text)), pos)
      else Keep(Pair(TakeOther(pair)), SkipValue(s, token, pos, depth))
    case _ => Keep(sink, SkipValue(s, token, pos, depth))
  }

  function TakeMember(s: string, sink: Sink, key: string, token: Token, pos: nat, depth: nat): (w: Walk)
    requires pos <= |s|
    ensures WalkFrom(s, sink, pos, w)
    decreases |s| - pos, 6
  {
    match sink
    case Root(f) => TakeRootMember(s, f, key, token, pos, depth)
    case Msg(m) => TakeMsgMember(s, m, key, token, pos, depth)
    case _ => Keep(sink, SkipValue(s, token, pos, depth))
  }

  function TakeMsgMember(s: string, m: MsgFields, key: string, token: Token, pos: nat, depth: nat): (w: Walk)
    requires pos <= |s|
    ensures WalkFrom(s, Msg(m), pos, w)
    decreases |s| - pos, 5
  {
    if IsMsgKey(key) then
      var field := TakeScalar(ScalarAt(m.scalars, key), token);
      Keep(Msg(m.(scalars := m.scalars[key := field])), SkipValue(s, token, pos, depth))
    else if key == "yes_dollars_fp" then
      match WalkLevels(s, m.yes, token, pos, depth)
      case Walked(inner, next) => Walked(Msg(m.(yes := inner.field)), next)
      case other => other
    else if key == "no_dollars_fp" then
      match WalkLevels(s, m.no, token, pos, depth)
      case Walked(inner, next) => Walked(Msg(m.(no := inner.field)), next)
      case other => other
    else Keep(Msg(m), SkipValue(s, token, pos, depth))
  }

  function TakeRootMember(s: string, f: Fields, key: string, token: Token, pos: nat, depth: nat): (w: Walk)
    requires pos <= |s|
    ensures WalkFrom(s, Root(f), pos, w)
    decreases |s| - pos, 5
  {
    if IsRootKey(key) then
      var field := TakeScalar(ScalarAt(f.scalars, key), token);
      Keep(Root(f.(scalars := f.scalars[key := field])), SkipValue(s, token, pos, depth))
    else if key == "msg" && !f.msgSeen then
      if token.kind != LeftBrace then Keep(Root(f.(msgSeen := true)), SkipValue(s, token, pos, depth))
      else if depth >= MAX_DEPTH then Failed
      else
        match ForEachMember(s, Msg(f.msg), pos, depth + 1)
        case Walked(inner, next) => Walked(Root(f.(msgSeen := true, msgIsObject := true, msg := inner.msg)), next)
        case other => other
    else Keep(Root(f), SkipValue(s, token, pos, depth))
  }

  // ---- the whole payload

  /** `Decoder::decode`; the sink of a successful walk is `Root`. A non-object root is always a failure. */
  function Decode(s: string): Walk {
    match Pull(s, 0)
    case PullFailed => Failed
    case PullEscaped => Escaped
    case Pulled(first, p) =>
      var w := if first.kind == LeftBrace then ForEachMember(s, Root(NO_FIELDS), p, 1) else SkipValue(s, first, p, 0);
      match w
      case Failed => Failed
      case Escaped => Escaped
      case Walked(sink, q) =>
        match Pull(s, q)
        case PullFailed => Failed
        case PullEscaped => Escaped
        case Pulled(end, next) => if end.kind == End && sink.Root? then Walked(sink, next) else Failed
  }

  function BuildDelta(m: MsgFields): Option<Payload> {
    var ticker := ScalarAt(m.scalars, "market_ticker").value;
    var id := ScalarAt(m.scalars, "market_id").value;
    var price := ScalarAt(m.scalars, "price_dollars").value;
    var delta := ScalarAt(m.scalars, "delta_fp").value;
    var side := ScalarAt(m.scalars, "side").value;
    var ts := ScalarAt(m.scalars, "ts").value;
    var tsMs := ParseU64(ScalarAt(m.scalars, "ts_ms").value);
    if ticker.None? || id.None? || price.None? || delta.None? || side.None? || ts.None? || tsMs.None? then None
    else Some(Delta(OrderBookDelta(
      ticker.value, id.value, price.value, delta.value, side.value, ts.value, tsMs.value)))
  }

  function BuildSnapshot(m: MsgFields): Option<Payload> {
    var ticker := ScalarAt(m.scalars, "market_ticker").value;
    var id := ScalarAt(m.scalars, "market_id").value;
    if ticker.None? || id.None? || (m.yes.present && !m.yes.valid) || (m.no.present && !m.no.valid) then None
    else Some(Snapshot(OrderBookSnapshot(ticker.value, id.value,
      if m.yes.present then m.yes.levels else [],
      if m.no.present then m.no.levels else [])))
  }

  function BuildFill(m: MsgFields): Option<Payload> {
    var order := ScalarAt(m.scalars, "order_id").value;
    var ticker := ScalarAt(m.scalars, "market_ticker").value;
    var count := ScalarAt(m.scalars, "count_fp").value;
    var action := ParseAction(ScalarAt(m.scalars, "action").value);
    if action.None? || order.None? || ticker.None? || count.None? then None
    else Some(Filled(Fill(order.value, ticker.value, count.value, action.value)))
  }

  function BuildBody(kind: string, f: Fields): Option<Payload> {
    if kind == "subscribed" then Some(NoPayload)
    else if !f.msgIsObject then None
    else if kind == "orderbook_delta" then BuildDelta(f.msg)
    else if kind == "orderbook_snapshot" then BuildSnapshot(f.msg)
    else if kind == "fill" then BuildFill(f.msg)
    else None
  }

  function Build(f: Fields): Option<Message> {
    match ScalarAt(f.scalars, "type").value
    case None => None
    case Some(kind) =>
      MakeMessage(kind, ParseU64(ScalarAt(f.scalars, "sid").value), ParseU64(ScalarAt(f.scalars, "seq").value),
        BuildBody(kind, f))
  }

  /** `decode_kalshi_message`. */
  function DecodeKalshiMessage(s: string): Option<Message> {
    match Decode(s)
    case Walked(Root(f), _) => Build(f)
    case Escaped => ThroughTree(s)
    case _ => None
  }
}
