/** Typed messages and their extraction from a parsed JSON tree. Error texts are left out:
    `None` stands for every `std::unexpected`. */
module KalshiMessages {
  import opened Text
  import opened JsonTree

  datatype PriceLevel = PriceLevel(price: string, quantity: string)

  datatype OrderBookSnapshot = OrderBookSnapshot(
    marketTicker: string, marketId: string, yes: seq<PriceLevel>, no: seq<PriceLevel>)

  datatype OrderBookDelta = OrderBookDelta(
    marketTicker: string, marketId: string, priceDollars: string, deltaFp: string, side: string, ts: string, tsMs: nat)

  datatype FillAction = Buy | Sell
  datatype Fill = Fill(orderId: string, marketTicker: string, countFp: string, action: FillAction)

  datatype Payload = NoPayload | Snapshot(snapshot: OrderBookSnapshot) | Delta(delta: OrderBookDelta) | Filled(fill: Fill)

  datatype Message = Message(kind: string, sid: nat, seqNo: nat, payload: Payload)

  // ---- field access

  function GetString(ms: seq<Member>, key: string): Option<string> {
    match Find(ms, key)
    case Some(JText(t)) => Some(t)
    case _ => None
  }

  function GetObject(ms: seq<Member>, key: string): Option<seq<Member>> {
    match Find(ms, key)
    case Some(JObject(o)) => Some(o)
    case _ => None
  }

  function GetArray(ms: seq<Member>, key: string): Option<seq<JsonValue>> {
    match Find(ms, key)
    case Some(JArray(vs)) => Some(vs)
    case _ => None
  }

  function ParseU64(t: Option<string>): Option<nat> {
    match t
    case Some(text) => FromChars(text, 10, U64_MAX)
    case None => None
  }

  function GetUint64(ms: seq<Member>, key: string): Option<nat> { ParseU64(GetString(ms, key)) }

  /** `static_cast<uint32_t>(value.value_or(0))`. */
  function LowWord(n: Option<nat>): nat { if n.Some? then n.value % 0x1_0000_0000 else 0 }

  // ---- message bodies

  function ParseDelta(ms: seq<Member>): Option<Payload> {
    var ticker := GetString(ms, "market_ticker");
    var id := GetString(ms, "market_id");
    var price := GetString(ms, "price_dollars");
    var delta := GetString(ms, "delta_fp");
    var side := GetString(ms, "side");
    var ts := GetString(ms, "ts");
    var tsMs := GetUint64(ms, "ts_ms");
    if ticker.None? || id.None? || price.None? || delta.None? || side.None? || ts.None? || tsMs.None? then None
    else Some(Delta(OrderBookDelta(
      ticker.value, id.value, price.value, delta.value, side.value, ts.value, tsMs.value)))
  }

  function LevelOf(v: JsonValue): Option<PriceLevel> {
    if v.JArray? && |v.elements| == 2 && v.elements[0].JText? && v.elements[1].JText?
    then Some(PriceLevel(v.elements[0].text, v.elements[1].text))
    else None
  }

  /** All price levels of an array, or `None` if any element is not a pair of texts. */
  function PriceLevels(vs: seq<JsonValue>): Option<seq<PriceLevel>> {
    if vs == [] then Some([])
    else
      var n := |vs| - 1;
      match (PriceLevels(vs[..n]), LevelOf(vs[n]))
      case (Some(levels), Some(level)) => Some(levels + [level])
      case _ => None
  }

  lemma {:induction false} PriceLevelsPrefix(vs: seq<JsonValue>, k: nat)
    requires k <= |vs| && PriceLevels(vs[..k]).None?
    ensures PriceLevels(vs).None?
    decreases |vs| - k
  {
    if k < |vs| {
      assert vs[..k + 1][..k] == vs[..k];
      PriceLevelsPrefix(vs, k + 1);
    } else {
      assert vs[..k] == vs;
    }
  }

  method ParsePriceLevels(vs: seq<JsonValue>) returns (r: Option<seq<PriceLevel>>)
    ensures r == PriceLevels(vs)
  {
    var levels := [];
    for i := 0 to |vs|
      invariant PriceLevels(vs[..i]) == Some(levels)
    {
      assert vs[..i + 1][..i] == vs[..i];
      var level := LevelOf(vs[i]);
      if level.None? {
        PriceLevelsPrefix(vs, i + 1);
        return None;
      }
      levels := levels + [level.value];
    }
    assert vs[..|vs|] == vs;
    return Some(levels);
  }

  function ParseSnapshot(ms: seq<Member>): Option<Payload> {
    var ticker := GetString(ms, "market_ticker");
    var id := GetString(ms, "market_id");
    var yes := SideLevels(GetArray(ms, "yes_dollars_fp"));
    var no := SideLevels(GetArray(ms, "no_dollars_fp"));
    if ticker.None? || id.None? || yes.None? || no.None? then None
    else Some(Snapshot(OrderBookSnapshot(ticker.value, id.value, yes.value, no.value)))
  }

  /** A missing or non-array side counts as empty. */
  function SideLevels(side: Option<seq<JsonValue>>): Option<seq<PriceLevel>> {
    if side.Some? then PriceLevels(side.value) else Some([])
  }

  function ParseAction(t: Option<string>): Option<FillAction> {
    if t == Some("buy") then Some(Buy) else if t == Some("sell") then Some(Sell) else None
  }

  function ParseFill(ms: seq<Member>): Option<Payload> {
    var order := GetString(ms, "order_id");
    var ticker := GetString(ms, "market_ticker");
    var count := GetString(ms, "count_fp");
    var action := ParseAction(GetString(ms, "action"));
    if action.None? || order.None? || ticker.None? || count.None? then None
    else Some(Filled(Fill(order.value, ticker.value, count.value, action.value)))
  }

  function ParseBody(kind: string, msg: Option<seq<Member>>): Option<Payload> {
    if kind == "subscribed" then Some(NoPayload)
    else if msg.None? then None
    else if kind == "orderbook_delta" then ParseDelta(msg.value)
    else if kind == "orderbook_snapshot" then ParseSnapshot(msg.value)
    else if kind == "fill" then ParseFill(msg.value)
    else None
  }

  /** `sid` names the subscription and `seq` orders its messages; an absent one reads as 0. */
  function MakeMessage(kind: string, sid: Option<nat>, seqNo: Option<nat>, payload: Option<Payload>): Option<Message> {
    match payload
    case None => None
    case Some(p) => Some(Message(kind, LowWord(sid), LowWord(seqNo), p))
  }

  /** `parse_kalshi_message`: the tree-based path after parsing. */
  function ParseKalshiMessage(json: JsonValue): Option<Message> {
    if !json.JObject? then None
    else
      var root := json.members;
      match GetString(root, "type")
      case None => None
      case Some(kind) =>
        MakeMessage(kind, GetUint64(root, "sid"), GetUint64(root, "seq"), ParseBody(kind, GetObject(root, "msg")))
  }

  datatype OrderResponse = OrderResponse(
    orderId: string, fillCount: string, remainingCount: string, tsMs: nat, clientOrderId: string)

  /** `parse_order_response`; the client id may be missing. */
  function ParseOrderResponse(json: JsonValue): Option<OrderResponse> {
    if !json.JObject? then None
    else
      var id := GetString(json.members, "order_id");
      var filled := GetString(json.members, "fill_count");
      var remaining := GetString(json.members, "remaining_count");
      var tsMs := GetUint64(json.members, "ts_ms");
      var client := GetString(json.members, "client_order_id");
      if id.None? || filled.None? || remaining.None? || tsMs.None? then None
      else Some(OrderResponse(id.value, filled.value, remaining.value, tsMs.value,
        if client.Some? then client.value else ""))
  }

  /** `parse_json` and then `parse_kalshi_message`. */
  function ThroughTree(s: string): Option<Message> {
    match ParseJson(s)
    case Some(json) => ParseKalshiMessage(json)
    case None => None
  }
}
