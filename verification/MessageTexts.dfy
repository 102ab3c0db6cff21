/** Which messages the decoders can return: a text for every well-formed message, and none for any other. */
module MessageTexts {
  import opened Text
  import opened JsonTree
  import opened JsonPrinter
  import opened KalshiMessages

  const WORD := 0x1_0000_0000

  function KindOf(p: Payload): string {
    match p
    case NoPayload => "subscribed"
    case Snapshot(_) => "orderbook_snapshot"
    case Delta(_) => "orderbook_delta"
    case Filled(_) => "fill"
  }

  /** The kind fits the payload and the numbers fit their types. */
  predicate WellFormed(m: Message) {
    && m.kind == KindOf(m.payload) && m.sid < WORD && m.seqNo < WORD
    && (m.payload.Delta? ==> m.payload.delta.tsMs <= U64_MAX)
  }

  // ---- a text for a message, with keys in order

  function LevelValue(l: PriceLevel): JsonValue { JArray([JText(l.price), JText(l.quantity)]) }

  function LevelValues(ls: seq<PriceLevel>): seq<JsonValue> { seq(|ls|, i requires 0 <= i < |ls| => LevelValue(ls[i])) }

  function ActionText(action: FillAction): string { if action == Buy then "buy" else "sell" }

  function BodyMembers(p: Payload): seq<Member> {
    match p
    case NoPayload => []
    case Snapshot(s) =>
      [Member("market_id", JText(s.marketId)), Member("market_ticker", JText(s.marketTicker)),
       Member("no_dollars_fp", JArray(LevelValues(s.no))), Member("yes_dollars_fp", JArray(LevelValues(s.yes)))]
    case Delta(d) =>
      [Member("delta_fp", JText(d.deltaFp)), Member("market_id", JText(d.marketId)),
       Member("market_ticker", JText(d.marketTicker)), Member("price_dollars", JText(d.priceDollars)),
       Member("side", JText(d.side)), Member("ts", JText(d.ts)), Member("ts_ms", JText(Decimal(d.tsMs)))]
    case Filled(f) =>
      [Member("action", JText(ActionText(f.action))), Member("count_fp", JText(f.countFp)),
       Member("market_ticker", JText(f.marketTicker)), Member("order_id", JText(f.orderId))]
  }

  function RootMembers(m: Message): seq<Member> {
    [Member("msg", JObject(BodyMembers(m.payload))), Member("seq", JText(Decimal(m.seqNo))),
     Member("sid", JText(Decimal(m.sid))), Member("type", JText(m.kind))]
  }

  function MessageText(m: Message): string { Print(JObject(RootMembers(m))) }

  // ---- keys

  predicate StepsUp(ms: seq<Member>, i: nat) { i + 1 < |ms| ==> Less(ms[i].key, ms[i + 1].key) }

  lemma {:induction false} SortedBySteps(ms: seq<Member>)
    requires forall i :: 0 <= i < |ms| ==> StepsUp(ms, i)
    ensures Sorted(ms)
  {
    hide Less;
    if |ms| > 1 {
      var n := |ms| - 1;
      var init := ms[..n];
      forall i | 0 <= i < n ensures StepsUp(init, i) { assert StepsUp(ms, i); }
      SortedBySteps(init);
      assert StepsUp(ms, n - 1);
      forall i | 0 <= i < n ensures Less(ms[i].key, ms[n].key) {
        if i < n - 1 {
          assert Less(init[i].key, init[n - 1].key);
          LessIsTransitive(ms[i].key, ms[n - 1].key, ms[n].key);
        }
      }
      forall i, j | 0 <= i < j < |ms| ensures Less(ms[i].key, ms[j].key) {
        if j < n { assert Less(init[i].key, init[j].key); }
      }
    }
  }

  /** Equal up to `k`, where the first is smaller or ends. */
  lemma {:induction false} LessAt(a: string, b: string, k: nat)
    requires k <= |a| && k < |b| && a[..k] == b[..k] && (k < |a| ==> a[k] < b[k])
    ensures Less(a, b)
  {
    if k > 0 {
      assert a[0] == a[..k][0] == b[..k][0] == b[0];
      assert a[1..][..k - 1] == a[..k][1..] && b[1..][..k - 1] == b[..k][1..];
      LessAt(a[1..], b[1..], k - 1);
    }
  }

  lemma HeadLess(a: string, b: string)
    requires a != [] && b != [] && a[0] < b[0]
    ensures Less(a, b)
  {}

  lemma MarketKeysAscend()
    ensures Less("market_id", "market_ticker")
  {
    assert "market_id"[..7] == "market_" == "market_ticker"[..7];
    LessAt("market_id", "market_ticker", 7);
  }

  lemma {:induction false} FindSorted(ms: seq<Member>, i: nat)
    requires Sorted(ms) && i < |ms|
    ensures Find(ms, ms[i].key) == Some(ms[i].value)
  {
    hide Less;
    if i > 0 {
      LessIsAsymmetric(ms[0].key, ms[i].key);
      FindSorted(ms[1..], i - 1);
    }
  }

  lemma SnapshotKeysAscend(s: OrderBookSnapshot)
    ensures Sorted(BodyMembers(Snapshot(s)))
  {
    hide Less;
    MarketKeysAscend();
    HeadLess("market_ticker", "no_dollars_fp");
    HeadLess("no_dollars_fp", "yes_dollars_fp");
    SortedBySteps(BodyMembers(Snapshot(s)));
  }

  lemma DeltaKeysAscend(d: OrderBookDelta)
    ensures Sorted(BodyMembers(Delta(d)))
  {
    hide Less, Decimal;
    HeadLess("delta_fp", "market_id");
    MarketKeysAscend();
    HeadLess("market_ticker", "price_dollars");
    HeadLess("price_dollars", "side");
    HeadLess("side", "ts");
    LessAt("ts", "ts_ms", 2);
    SortedBySteps(BodyMembers(Delta(d)));
  }

  lemma FillKeysAscend(f: Fill)
    ensures Sorted(BodyMembers(Filled(f)))
  {
    hide Less;
    HeadLess("action", "count_fp");
    HeadLess("count_fp", "market_ticker");
    HeadLess("market_ticker", "order_id");
    SortedBySteps(BodyMembers(Filled(f)));
  }

  lemma BodyKeysAscend(p: Payload)
    ensures Sorted(BodyMembers(p))
  {
    hide Less, Decimal;
    match p
    case NoPayload =>
    case Snapshot(s) => SnapshotKeysAscend(s);
    case Delta(d) => DeltaKeysAscend(d);
    case Filled(f) => FillKeysAscend(f);
  }

  lemma RootKeysAscend(m: Message)
    ensures Sorted(RootMembers(m))
  {
    hide Less, Decimal, BodyMembers;
    HeadLess("msg", "seq");
    LessAt("seq", "sid", 1);
    HeadLess("sid", "type");
    SortedBySteps(RootMembers(m));
  }

  // ---- reading the text back

  lemma LevelsArePrintable(ls: seq<PriceLevel>)
    ensures Printable(JArray(LevelValues(ls)), 2)
  {}

  lemma {:induction false} MoreRoom(v: JsonValue, room: nat, more: nat)
    requires Printable(v, room) && room <= more
    ensures Printable(v, more)
    decreases v
  {
    hide Sorted;
    match v
    case JArray(vs) =>
      forall i | 0 <= i < |vs| ensures Printable(vs[i], more - 1) { MoreRoom(vs[i], room - 1, more - 1); }
    case JObject(ms) =>
      forall i | 0 <= i < |ms| ensures Printable(ms[i].value, more - 1) { MoreRoom(ms[i].value, room - 1, more - 1); }
    case _ =>
  }

  lemma BodyIsPrintable(p: Payload)
    ensures Printable(JObject(BodyMembers(p)), 3)
  {
    BodyKeysAscend(p);
    hide Sorted, Decimal, LevelValues;
    if p.Snapshot? {
      LevelsArePrintable(p.snapshot.yes);
      LevelsArePrintable(p.snapshot.no);
    }
  }

  lemma TextParses(m: Message)
    ensures ParseJson(MessageText(m)) == Some(JObject(RootMembers(m)))
  {
    RootKeysAscend(m);
    BodyIsPrintable(m.payload);
    MoreRoom(JObject(BodyMembers(m.payload)), 3, MAX_DEPTH - 1);
    RootIsPrintable(m);
    hide ParseJson, Print, Printable;
    PrintThenParse(JObject(RootMembers(m)));
  }

  lemma RootIsPrintable(m: Message)
    requires Sorted(RootMembers(m)) && Printable(JObject(BodyMembers(m.payload)), MAX_DEPTH - 1)
    ensures Printable(JObject(RootMembers(m)), MAX_DEPTH)
  {
    hide Sorted, Decimal, BodyMembers;
  }

  lemma {:induction false} LevelsReadBack(ls: seq<PriceLevel>)
    ensures PriceLevels(LevelValues(ls)) == Some(ls)
  {
    if ls != [] {
      var n := |ls| - 1;
      LevelsReadBack(ls[..n]);
      assert LevelValues(ls)[..n] == LevelValues(ls[..n]);
      assert ls == ls[..n] + [ls[n]];
    }
  }

  lemma SnapshotReadsBack(s: OrderBookSnapshot)
    ensures ParseSnapshot(BodyMembers(Snapshot(s))) == Some(Snapshot(s))
  {
    SnapshotKeysAscend(s);
    LevelsReadBack(s.yes);
    LevelsReadBack(s.no);
    var ms := BodyMembers(Snapshot(s));
    hide Find, Sorted, PriceLevels, LevelValues;
    FindSorted(ms, 0);
    FindSorted(ms, 1);
    FindSorted(ms, 2);
    FindSorted(ms, 3);
  }

  lemma DeltaReadsBack(d: OrderBookDelta)
    requires d.tsMs <= U64_MAX
    ensures ParseDelta(BodyMembers(Delta(d))) == Some(Delta(d))
  {
    DeltaKeysAscend(d);
    var ms := BodyMembers(Delta(d));
    hide Find, Sorted, Decimal, Value;
    FindSorted(ms, 0);
    FindSorted(ms, 1);
    FindSorted(ms, 2);
    FindSorted(ms, 3);
    FindSorted(ms, 4);
    FindSorted(ms, 5);
    FindSorted(ms, 6);
  }

  lemma FillReadsBack(f: Fill)
    ensures ParseFill(BodyMembers(Filled(f))) == Some(Filled(f))
  {
    FillKeysAscend(f);
    var ms := BodyMembers(Filled(f));
    hide Find, Sorted;
    assert "buy" != "sell";
    FindSorted(ms, 0);
    FindSorted(ms, 1);
    FindSorted(ms, 2);
    FindSorted(ms, 3);
  }

  lemma KindsDiffer()
    ensures "orderbook_delta" != "subscribed" && "orderbook_snapshot" != "subscribed" && "fill" != "subscribed"
    ensures "orderbook_snapshot" != "orderbook_delta" && "fill" != "orderbook_delta" && "fill" != "orderbook_snapshot"
  {
    assert |"subscribed"| == 10 && |"orderbook_delta"| == 15 && |"orderbook_snapshot"| == 18 && |"fill"| == 4;
  }

  lemma BodyReadsBack(m: Message)
    requires WellFormed(m)
    ensures ParseBody(m.kind, Some(BodyMembers(m.payload))) == Some(m.payload)
  {
    KindsDiffer();
    hide ParseSnapshot, ParseDelta, ParseFill, BodyMembers;
    match m.payload
    case NoPayload =>
    case Snapshot(s) => SnapshotReadsBack(s);
    case Delta(d) => DeltaReadsBack(d);
    case Filled(f) => FillReadsBack(f);
  }

  lemma RootReadsBack(m: Message)
    requires WellFormed(m)
    ensures ParseKalshiMessage(JObject(RootMembers(m))) == Some(m)
  {
    hide Find, Sorted, Decimal, Value, BodyMembers, ParseBody, KindOf, Numeral;
    RootKeysAscend(m);
    BodyReadsBack(m);
    var ms := RootMembers(m);
    FindSorted(ms, 0);
    FindSorted(ms, 1);
    FindSorted(ms, 2);
    FindSorted(ms, 3);
  }

  /** The text of a well-formed message decodes to it. */
  lemma TextDecodes(m: Message)
    requires WellFormed(m)
    ensures ThroughTree(MessageText(m)) == Some(m)
  {
    hide ParseJson, MessageText, RootMembers, ParseKalshiMessage;
    TextParses(m);
    RootReadsBack(m);
  }

  /** What is decoded is well formed. */
  lemma DecodedIsWellFormed(json: JsonValue)
    ensures ParseKalshiMessage(json).Some? ==> WellFormed(ParseKalshiMessage(json).value)
  {
    hide Find, PriceLevels, Value;
  }

  /** A message is the decoding of some text exactly if it is well formed. */
  lemma DecodableExactlyIfWellFormed(m: Message)
    ensures (exists s :: ThroughTree(s) == Some(m)) <==> WellFormed(m)
  {
    hide ParseJson, ParseKalshiMessage, WellFormed;
    if WellFormed(m) { TextDecodes(m); }
    forall s | ThroughTree(s) == Some(m) ensures WellFormed(m) { DecodedIsWellFormed(ParseJson(s).value); }
  }

  // ---- texts without a number

  /** The text of a message with its number left out. */
  function UnnumberedText(m: Message): string { Print(JObject([RootMembers(m)[0]] + RootMembers(m)[2..])) }

  lemma {:induction false} SortedWithout(ms: seq<Member>, k: nat)
    requires Sorted(ms) && k < |ms|
    ensures Sorted(ms[..k] + ms[k + 1..]) && Find(ms[..k] + ms[k + 1..], ms[k].key).None?
  {
    hide Less;
    var rest := ms[..k] + ms[k + 1..];
    forall i | 0 <= i < |rest| ensures rest[i].key != ms[k].key {
      var j := if i < k then i else i + 1;
      assert rest[i] == ms[j];
      if j < k { LessIsAsymmetric(ms[j].key, ms[k].key); } else { LessIsAsymmetric(ms[k].key, ms[j].key); }
    }
    FindNothing(rest, ms[k].key);
  }

  lemma UnnumberedParses(m: Message)
    ensures Sorted([RootMembers(m)[0]] + RootMembers(m)[2..]) && Find([RootMembers(m)[0]] + RootMembers(m)[2..], "seq").None?
    ensures ParseJson(UnnumberedText(m)) == Some(JObject([RootMembers(m)[0]] + RootMembers(m)[2..]))
  {
    var ms := [RootMembers(m)[0]] + RootMembers(m)[2..];
    RootKeysAscend(m);
    SortedWithout(RootMembers(m), 1);
    assert ms == RootMembers(m)[..1] + RootMembers(m)[2..];
    BodyIsPrintable(m.payload);
    MoreRoom(JObject(BodyMembers(m.payload)), 3, MAX_DEPTH - 1);
    hide ParseJson, Print, Sorted, BodyMembers, Decimal, Find;
    assert Printable(JObject(ms), MAX_DEPTH);
    PrintThenParse(JObject(ms));
  }

  /** A missing number reads as 0. */
  lemma UnnumberedDecodes(m: Message)
    requires WellFormed(m) && m.seqNo == 0
    ensures ThroughTree(UnnumberedText(m)) == Some(m)
  {
    hide ParseJson, Find, Sorted, Decimal, Value, BodyMembers, ParseBody, KindOf, UnnumberedText, Numeral;
    UnnumberedParses(m);
    BodyReadsBack(m);
    var ms := [RootMembers(m)[0]] + RootMembers(m)[2..];
    FindSorted(ms, 0);
    FindSorted(ms, 1);
    FindSorted(ms, 2);
  }
}
