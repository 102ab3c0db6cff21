/** What the extraction of messages and order responses returns, field by field, with the keys written out. */
module MessageFields {
  import opened Text
  import opened JsonTree
  import opened JsonGrammar
  import opened JsonDocuments
  import opened KalshiMessages
  import MessageTexts
  import opened JsonNumbers
  import P = JsonPieces

  // ---- decimal numbers

  /** Decimal digits, most significant first; leading zeros are allowed. */
  predicate Digits(t: string, n: nat) {
    t != [] && t[|t| - 1] == "0123456789"[n % 10] && if |t| == 1 then n < 10 else Digits(t[..|t| - 1], n / 10)
  }

  lemma DigitIs(c: char, d: nat)
    requires d < 10
    ensures DigitOf(c) == d <==> c == "0123456789"[d]
  {}

  lemma {:induction false} DigitsAreTheValue(t: string, n: nat)
    ensures Digits(t, n) <==> t != [] && Numeral(t, 10) && Value(t, 10) == n
  {
    if t != [] {
      var init, c := t[..|t| - 1], t[|t| - 1];
      assert t == init + [c];
      assert Numeral(t, 10) <==> Numeral(init, 10) && DigitOf(c) < 10;
      DigitIs(c, n % 10);
      if |t| > 1 { DigitsAreTheValue(init, n / 10); } else { assert init == []; }
    }
  }

  /** `t` is the 64-bit number `n`. */
  predicate IsU64(t: string, n: nat) { Digits(t, n) && n <= 18446744073709551615 }

  lemma U64IsRead(t: string, n: nat)
    ensures FromChars(t, 10, U64_MAX) == Some(n) <==> IsU64(t, n)
  {
    hide Digits, Value, Numeral;
    DigitsAreTheValue(t, n);
  }

  // ---- members of an object

  type Fields = seq<Member>

  ghost predicate HasText(ms: Fields, key: string, t: string) { Find(ms, key) == Some(JText(t)) }

  ghost predicate HasU64(ms: Fields, key: string, n: nat) { exists t :: HasText(ms, key, t) && IsU64(t, n) }

  lemma NumberIsRead(ms: Fields, key: string, n: nat)
    ensures GetUint64(ms, key) == Some(n) <==> HasU64(ms, key, n)
  {
    hide IsU64, FromChars;
    var t := GetString(ms, key);
    if t.Some? {
      U64IsRead(t.value, n);
      assert HasText(ms, key, t.value);
    }
  }

  /** A 64-bit number cut to 32 bits; anything else counts as 0. */
  ghost predicate HasWord(ms: Fields, key: string, w: nat) {
    || (exists n: nat :: HasU64(ms, key, n) && w == n % 4294967296)
    || (w == 0 && !exists n: nat :: HasU64(ms, key, n))
  }

  lemma WordIsRead(ms: Fields, key: string, w: nat)
    ensures LowWord(GetUint64(ms, key)) == w <==> HasWord(ms, key, w)
  {
    hide HasU64, GetUint64;
    forall n: nat ensures GetUint64(ms, key) == Some(n) <==> HasU64(ms, key, n) { NumberIsRead(ms, key, n); }
  }

  // ---- messages

  ghost predicate IsDelta(ms: Fields, d: OrderBookDelta) {
    && HasText(ms, "market_ticker", d.marketTicker) && HasText(ms, "market_id", d.marketId)
    && HasText(ms, "price_dollars", d.priceDollars) && HasText(ms, "delta_fp", d.deltaFp)
    && HasText(ms, "side", d.side) && HasText(ms, "ts", d.ts) && HasU64(ms, "ts_ms", d.tsMs)
  }

  lemma DeltaIsRead(ms: Fields, d: OrderBookDelta)
    ensures ParseDelta(ms) == Some(Delta(d)) <==> IsDelta(ms, d)
  {
    hide HasU64, GetUint64, Find;
    NumberIsRead(ms, "ts_ms", d.tsMs);
  }

  function Pairs(ls: seq<PriceLevel>): seq<JsonValue> {
    seq(|ls|, i requires 0 <= i < |ls| => JArray([JText(ls[i].price), JText(ls[i].quantity)]))
  }

  /** An array of pairs of texts; a side that is missing or no array is empty. */
  ghost predicate HasLevels(ms: Fields, key: string, ls: seq<PriceLevel>) {
    match Find(ms, key)
    case Some(JArray(vs)) => vs == Pairs(ls)
    case _ => ls == []
  }

  lemma {:induction false} LevelsAreRead(vs: seq<JsonValue>, ls: seq<PriceLevel>)
    ensures PriceLevels(vs) == Some(ls) <==> vs == Pairs(ls)
    decreases vs
  {
    var want := Pairs(ls);
    if vs != [] && ls != [] {
      var n, k := |vs| - 1, |ls| - 1;
      LevelsAreRead(vs[..n], ls[..k]);
      var init := Pairs(ls[..k]);
      assert want[..k] == init;
      assert ls == ls[..k] + [ls[k]];
      assert vs == vs[..n] + [vs[n]];
      LevelIsRead(vs[n], ls[k]);
      if PriceLevels(vs) == Some(ls) {
        assert PriceLevels(vs[..n]).value + [LevelOf(vs[n]).value] == ls[..k] + [ls[k]];
        assert PriceLevels(vs[..n]).value == ls[..k] && LevelOf(vs[n]).value == ls[k];
        assert want == want[..k] + [want[k]];
      }
      if vs == want { assert n == k && vs[..n] == init; }
    }
  }

  lemma LevelIsRead(v: JsonValue, l: PriceLevel)
    ensures LevelOf(v) == Some(l) <==> v == JArray([JText(l.price), JText(l.quantity)])
  {
    if LevelOf(v) == Some(l) { assert v.elements == [JText(l.price), JText(l.quantity)]; }
  }

  ghost predicate IsSnapshot(ms: Fields, s: OrderBookSnapshot) {
    && HasText(ms, "market_ticker", s.marketTicker) && HasText(ms, "market_id", s.marketId)
    && HasLevels(ms, "yes_dollars_fp", s.yes) && HasLevels(ms, "no_dollars_fp", s.no)
  }

  lemma SideIsRead(ms: Fields, key: string, ls: seq<PriceLevel>)
    ensures SideLevels(GetArray(ms, key)) == Some(ls) <==> HasLevels(ms, key, ls)
  {
    hide PriceLevels, Find;
    var side := GetArray(ms, key);
    if side.Some? { LevelsAreRead(side.value, ls); }
  }

  lemma SnapshotIsRead(ms: Fields, s: OrderBookSnapshot)
    ensures ParseSnapshot(ms) == Some(Snapshot(s)) <==> IsSnapshot(ms, s)
  {
    hide HasLevels, SideLevels, GetArray, Find;
    SideIsRead(ms, "yes_dollars_fp", s.yes);
    SideIsRead(ms, "no_dollars_fp", s.no);
  }

  ghost predicate IsFill(ms: Fields, f: Fill) {
    && HasText(ms, "order_id", f.orderId) && HasText(ms, "market_ticker", f.marketTicker)
    && HasText(ms, "count_fp", f.countFp) && HasText(ms, "action", match f.action case Buy => "buy" case Sell => "sell")
  }

  lemma FillIsRead(ms: Fields, f: Fill)
    ensures ParseFill(ms) == Some(Filled(f)) <==> IsFill(ms, f)
  {
    hide Find;
    assert "buy" != "sell";
  }

  /** The payload that the kind asks for, taken from the members of `msg`. */
  ghost predicate IsPayload(kind: string, msg: Option<JsonValue>, p: Payload) {
    match p
    case NoPayload => kind == "subscribed"
    case Delta(d) => kind == "orderbook_delta" && msg.Some? && msg.value.JObject? && IsDelta(msg.value.members, d)
    case Snapshot(s) => kind == "orderbook_snapshot" && msg.Some? && msg.value.JObject? && IsSnapshot(msg.value.members, s)
    case Filled(f) => kind == "fill" && msg.Some? && msg.value.JObject? && IsFill(msg.value.members, f)
  }

  lemma PayloadIsRead(kind: string, root: Fields, p: Payload)
    ensures ParseBody(kind, GetObject(root, "msg")) == Some(p) <==> IsPayload(kind, Find(root, "msg"), p)
  {
    MessageTexts.KindsDiffer();
    hide ParseSnapshot, ParseDelta, ParseFill, IsSnapshot, IsDelta, IsFill, Find;
    var msg := GetObject(root, "msg");
    if msg.Some? {
      match p
      case NoPayload => BodiesHavePayload(msg.value);
      case Delta(d) => DeltaIsRead(msg.value, d); BodiesHavePayload(msg.value);
      case Snapshot(s) => SnapshotIsRead(msg.value, s); BodiesHavePayload(msg.value);
      case Filled(f) => FillIsRead(msg.value, f); BodiesHavePayload(msg.value);
    }
  }

  lemma BodiesHavePayload(ms: Fields)
    ensures ParseDelta(ms).Some? ==> ParseDelta(ms).value.Delta?
    ensures ParseSnapshot(ms).Some? ==> ParseSnapshot(ms).value.Snapshot?
    ensures ParseFill(ms).Some? ==> ParseFill(ms).value.Filled?
  {
    hide Find, PriceLevels, FromChars;
  }

  ghost predicate IsMessage(root: Fields, m: Message) {
    && HasText(root, "type", m.kind) && HasWord(root, "sid", m.sid) && HasWord(root, "seq", m.seqNo)
    && IsPayload(m.kind, Find(root, "msg"), m.payload)
  }

  /** A message is read exactly from an object that holds it, field by field. */
  lemma MessageIsRead(json: JsonValue, m: Message)
    ensures ParseKalshiMessage(json) == Some(m) <==> json.JObject? && IsMessage(json.members, m)
  {
    hide IsPayload, ParseBody, HasWord, GetUint64, LowWord, Find;
    if json.JObject? {
      WordIsRead(json.members, "sid", m.sid);
      WordIsRead(json.members, "seq", m.seqNo);
      PayloadIsRead(m.kind, json.members, m.payload);
    }
  }

  // ---- order responses

  ghost predicate IsOrderResponse(ms: Fields, r: OrderResponse) {
    && HasText(ms, "order_id", r.orderId) && HasText(ms, "fill_count", r.fillCount)
    && HasText(ms, "remaining_count", r.remainingCount) && HasU64(ms, "ts_ms", r.tsMs)
    && (HasText(ms, "client_order_id", r.clientOrderId)
        || (r.clientOrderId == "" && !exists t :: HasText(ms, "client_order_id", t)))
  }

  /** An order response is read exactly from an object that holds it; a missing client id reads as empty. */
  lemma OrderResponseIsRead(json: JsonValue, r: OrderResponse)
    ensures ParseOrderResponse(json) == Some(r) <==> json.JObject? && IsOrderResponse(json.members, r)
  {
    hide HasU64, GetUint64, Find;
    if json.JObject? {
      NumberIsRead(json.members, "ts_ms", r.tsMs);
      var client := GetString(json.members, "client_order_id");
      if client.Some? { assert HasText(json.members, "client_order_id", client.value); }
    }
  }

  // ---- texts

  /** The members of a parsed object are those of its document, of equal keys the first. */
  lemma ObjectTextParses(s: string, ms: seq<DocMember>, bs: seq<string>)
    requires Good(ObjectDoc(ms), 64) && Writes(s, ObjectDoc(ms), bs) && MeaningOf(ObjectDoc(ms), 64).Some?
    ensures ParseJson(s).Some? && ParseJson(s).value.JObject?
    ensures forall key :: Find(ParseJson(s).value.members, key) == FirstValue(ms, 63, key)
  {
    DocumentParses(s, ObjectDoc(ms), bs);
    hide ParseJson, MembersMean, FirstValue, Writes, Find;
    forall key ensures Find(ParseJson(s).value.members, key) == FirstValue(ms, 63, key) {
      FirstMemberCounts(ms, 63, [], key);
      assert Find([], key).None? by { FindNothing([], key); }
    }
  }

  ghost predicate SaysText(ms: seq<DocMember>, key: string, t: string)
    requires GoodMembers(ms, 63)
  {
    FirstValue(ms, 63, key) == Some(JText(t))
  }

  ghost predicate SaysU64(ms: seq<DocMember>, key: string, n: nat)
    requires GoodMembers(ms, 63)
  {
    exists t :: SaysText(ms, key, t) && IsU64(t, n)
  }

  /** A response's text, with its members in any order, other members between them and any blanks, is read as
      `r` exactly if the members say so. */
  lemma ResponseTextIsRead(s: string, ms: seq<DocMember>, bs: seq<string>, r: OrderResponse)
    requires Good(ObjectDoc(ms), 64) && Writes(s, ObjectDoc(ms), bs) && MeaningOf(ObjectDoc(ms), 64).Some?
    ensures (ParseJson(s).Some? && ParseOrderResponse(ParseJson(s).value) == Some(r)) <==>
      && SaysText(ms, "order_id", r.orderId) && SaysText(ms, "fill_count", r.fillCount)
      && SaysText(ms, "remaining_count", r.remainingCount) && SaysU64(ms, "ts_ms", r.tsMs)
      && (SaysText(ms, "client_order_id", r.clientOrderId)
          || (r.clientOrderId == "" && !exists t :: SaysText(ms, "client_order_id", t)))
  {
    hide ParseJson, ParseOrderResponse, FirstValue, Writes, Find, IsU64, MeaningOf;
    ObjectTextParses(s, ms, bs);
    var fields := ParseJson(s).value.members;
    OrderResponseIsRead(ParseJson(s).value, r);
    forall key, t ensures HasText(fields, key, t) <==> SaysText(ms, key, t) {}
    assert HasU64(fields, "ts_ms", r.tsMs) <==> SaysU64(ms, "ts_ms", r.tsMs);
  }

  ghost predicate SaysWord(ms: seq<DocMember>, key: string, w: nat)
    requires GoodMembers(ms, 63)
  {
    || (exists n: nat :: SaysU64(ms, key, n) && w == n % 4294967296)
    || (w == 0 && !exists n: nat :: SaysU64(ms, key, n))
  }

  /** The same for the messages of the feed. */
  lemma MessageTextIsRead(s: string, ms: seq<DocMember>, bs: seq<string>, m: Message)
    requires Good(ObjectDoc(ms), 64) && Writes(s, ObjectDoc(ms), bs) && MeaningOf(ObjectDoc(ms), 64).Some?
    ensures ThroughTree(s) == Some(m) <==>
      && SaysText(ms, "type", m.kind) && SaysWord(ms, "sid", m.sid) && SaysWord(ms, "seq", m.seqNo)
      && IsPayload(m.kind, FirstValue(ms, 63, "msg"), m.payload)
  {
    hide ParseJson, ParseKalshiMessage, FirstValue, Writes, Find, IsU64, MeaningOf, IsPayload;
    ObjectTextParses(s, ms, bs);
    var fields := ParseJson(s).value.members;
    MessageIsRead(ParseJson(s).value, m);
    forall key, n: nat ensures HasU64(fields, key, n) <==> SaysU64(ms, key, n) {
      forall t ensures HasText(fields, key, t) <==> SaysText(ms, key, t) {}
    }
  }

  /** A number in a text is read as its digits: `{"seq": 17}` and `{"seq": "17"}` say the same. */
  lemma NumberSaysItsDigits(ms: seq<DocMember>, i: nat, key: string, n: NumberParts)
    requires GoodMembers(ms, 63) && i < |ms| && P.Meaning(ms[i].key) == Some(key) && ms[i].value == NumberDoc(n)
    requires forall j :: 0 <= j < i ==> P.Meaning(ms[j].key) != Some(key)
    ensures SaysText(ms, key, Render(n))
    decreases i
  {
    hide P.Meaning;
    if i > 0 { NumberSaysItsDigits(ms[1..], i - 1, key, n); }
  }
}
