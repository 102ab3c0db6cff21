/** From a signal to the order on the wire and back. */
module OrderPath {
  import opened Text
  import opened JsonLexing
  import opened JsonTree
  import opened JsonPrinter
  import opened KalshiMessages
  import opened MessageFields
  import opened Strategies
  import FixedPoint

  datatype TimeInForce = FillOrKill | GoodTillCanceled | ImmediateOrCancel
  datatype SelfTradePrevention = TakerAtCross | Maker

  datatype OrderRequest = OrderRequest(
    ticker: string, side: OrderSide, count: string, price: string, timeInForce: TimeInForce,
    selfTradePrevention: SelfTradePrevention, clientOrderId: string, postOnly: bool)

  function SideText(side: OrderSide): string { if side == Bid then "bid" else "ask" }

  function TifText(tif: TimeInForce): string {
    match tif
    case FillOrKill => "fill_or_kill"
    case GoodTillCanceled => "good_till_canceled"
    case ImmediateOrCancel => "immediate_or_cancel"
  }

  function StpText(stp: SelfTradePrevention): string { if stp == Maker then "maker" else "taker_at_cross" }

  /** Three digits, zero padded. */
  function ThreeDigits(n: nat): string
    requires n < 1000
  {
    [DigitChar(n / 100), DigitChar(n / 10 % 10), DigitChar(n % 10)]
  }

  /** Dollars with four decimals: 595 is "0.5950". */
  function PriceToDollars(price: nat): string { Decimal(price / 1000) + "." + ThreeDigits(price % 1000) + "0" }

  function CountText(count: nat): string { Decimal(count) + ".00" }

  function MakeIocOrder(ticker: string, signal: Signal, clientOrderId: string): OrderRequest
    requires signal.price >= 0 && signal.count >= 0
  {
    OrderRequest(ticker, signal.side, CountText(signal.count), PriceToDollars(signal.price),
      ImmediateOrCancel, TakerAtCross, clientOrderId, false)
  }

  function KeyText(key: string): string { "\"" + key + "\":" }

  /** One `"key":"text"` of the format string; the text is inserted as it is. */
  function RawMember(key: string, text: string): string { KeyText(key) + ("\"" + text + "\"") }

  function PostOnlyMember(postOnly: bool): string { KeyText("post_only") + if postOnly then "true" else "false" }

  /** Member texts joined by commas and closed. */
  function Joined(ts: seq<string>): string
    requires ts != []
  {
    if |ts| == 1 then ts[0] + "}" else ts[0] + ("," + Joined(ts[1..]))
  }

  function MemberTexts(o: OrderRequest): seq<string> {
    [RawMember("ticker", o.ticker), RawMember("side", SideText(o.side)), RawMember("count", o.count),
     RawMember("price", o.price), RawMember("time_in_force", TifText(o.timeInForce)),
     RawMember("self_trade_prevention_type", StpText(o.selfTradePrevention)),
     PostOnlyMember(o.postOnly), RawMember("client_order_id", o.clientOrderId)]
  }

  function SerializeOrderRequest(o: OrderRequest): string { "{" + Joined(MemberTexts(o)) }

  /** The members the text is meant to spell. */
  function OrderMembers(o: OrderRequest): seq<Member> {
    [Member("ticker", JText(o.ticker)), Member("side", JText(SideText(o.side))), Member("count", JText(o.count)),
     Member("price", JText(o.price)), Member("time_in_force", JText(TifText(o.timeInForce))),
     Member("self_trade_prevention_type", JText(StpText(o.selfTradePrevention))),
     Member("post_only", JBool(o.postOnly)), Member("client_order_id", JText(o.clientOrderId))]
  }

  // ---- numbers in the order

  lemma ThreeDigitsValue(n: nat)
    requires n < 1000
    ensures Numeral(ThreeDigits(n), 10) && Value(ThreeDigits(n), 10) == n
  {
    ValueOfThree(DigitChar(n / 100), DigitChar(n / 10 % 10), DigitChar(n % 10));
    SplitThree(n);
  }

  lemma ValueOfThree(x: char, y: char, z: char)
    requires IsDigit(x) && IsDigit(y) && IsDigit(z)
    ensures Numeral([x, y, z], 10)
    ensures Value([x, y, z], 10) == (DigitOf(x) * 10 + DigitOf(y)) * 10 + DigitOf(z)
  {
    hide Value;
    ValueOfNone();
    ValueSnoc([], x, 10);
    ValueSnoc([x], y, 10);
    ValueSnoc([x, y], z, 10);
    assert [] + [x] == [x] && [x] + [y] == [x, y] && [x, y] + [z] == [x, y, z];
  }

  lemma ValueOfNone()
    ensures Value([], 10) == 0
  {}

  lemma SplitThree(n: nat)
    ensures n == (n / 100 * 10 + n / 10 % 10) * 10 + n % 10
  {}

  lemma PointAfterDigits(whole: string, fraction: string)
    requires Numeral(whole, 10)
    ensures var b := whole + "." + fraction;
      FixedPoint.Point(b) == |whole| && FixedPoint.Whole(b) == whole && FixedPoint.Fraction(b) == fraction
  {
    var b := whole + "." + fraction;
    assert forall i :: 0 <= i < |whole| ==> b[i] == whole[i] && DigitOf(b[i]) < 10;
    assert b[|whole|] == '.';
    assert b[..|whole|] == whole && b[|whole| + 1..] == fraction;
  }

  /** A decimal with `scale` digits and some zeros after the point. */
  lemma DecimalReadsBack(whole: string, kept: string, zeros: string, scale: nat)
    requires whole != [] && Numeral(whole, 10) && Numeral(kept, 10) && |kept| == scale && FixedPoint.AllZero(zeros)
    ensures Numeral(whole + kept, 10)
    ensures FixedPoint.ParsedFixed(whole + "." + (kept + zeros), scale)
         == if Value(whole + kept, 10) <= I64_MAX then Some(Value(whole + kept, 10)) else None
  {
    var b := whole + "." + (kept + zeros);
    PointAfterDigits(whole, kept + zeros);
    assert b[0] == whole[0] && DigitOf(whole[0]) < 10;
    assert FixedPoint.Body(b) == b;
    assert (kept + zeros)[..scale] == kept && (kept + zeros)[scale..] == zeros;
    assert FixedPoint.Kept(b, scale) == whole + kept;
    assert Pow(10, 0) == 1;
    hide Value, FixedPoint.Point;
    assert FixedPoint.IsDecimal(b);
    assert FixedPoint.Scaled(b, scale) == Value(whole + kept, 10) * 1;
  }

  /** The count written in the order is the count. */
  lemma CountReadsBack(count: nat)
    ensures FixedPoint.ParsedFixed(CountText(count), 0) == if count <= I64_MAX then Some(count) else None
  {
    DecimalReadsBack(Decimal(count), "", "00", 0);
    assert "" + "00" == "00" && Decimal(count) + "" == Decimal(count);
    assert CountText(count) == Decimal(count) + "." + "00";
  }

  lemma PriceDigits(price: nat)
    ensures Numeral(Decimal(price / 1000) + ThreeDigits(price % 1000), 10)
    ensures Value(Decimal(price / 1000) + ThreeDigits(price % 1000), 10) == price
  {
    ThreeDigitsValue(price % 1000);
    hide Value, Decimal, ThreeDigits;
    ValueConcat(Decimal(price / 1000), ThreeDigits(price % 1000), 10);
    assert |ThreeDigits(price % 1000)| == 3 by { ThreeDigitsLength(price % 1000); }
    assert Pow(10, 3) == 1000;
  }

  lemma ThreeDigitsLength(n: nat)
    requires n < 1000
    ensures |ThreeDigits(n)| == 3
  {}

  /** The price written in the order is the price. */
  lemma PriceReadsBack(price: nat)
    ensures FixedPoint.ParsedFixed(PriceToDollars(price), 3) == if price <= I64_MAX then Some(price) else None
  {
    var whole, milli := Decimal(price / 1000), ThreeDigits(price % 1000);
    ThreeDigitsValue(price % 1000);
    PriceDigits(price);
    hide Value, Decimal, FixedPoint.ParsedFixed;
    DecimalReadsBack(whole, milli, "0", 3);
    assert PriceToDollars(price) == whole + "." + (milli + "0");
  }

  // ---- the text is the printed object if nothing needs escaping

  predicate Plain(t: string) { forall i :: 0 <= i < |t| ==> IsPlain(t[i]) }

  lemma {:induction false} PlainNeedsNoEscape(t: string)
    requires Plain(t)
    ensures Escape(t) == t && Quote(t) == "\"" + t + "\""
  {
    if t != [] {
      PlainNeedsNoEscape(t[1..]);
      assert IsPlain(t[0]) && EscapeChar(t[0]) == [t[0]];
    }
  }

  lemma KeyedIsPrinted(key: string, v: JsonValue)
    requires Plain(key)
    ensures KeyText(key) + Print(v) == PrintMember(Member(key, v))
  {
    PlainNeedsNoEscape(key);
    hide Print, Escape, Plain;
    assert "\"" + key + "\":" == ("\"" + key + "\"") + ":";
  }

  lemma RawMemberIsPrinted(key: string, text: string)
    requires Plain(key) && Plain(text)
    ensures RawMember(key, text) == PrintMember(Member(key, JText(text)))
  {
    PlainNeedsNoEscape(text);
    KeyedIsPrinted(key, JText(text));
  }

  lemma PostOnlyIsPrinted(postOnly: bool)
    requires Plain("post_only")
    ensures PostOnlyMember(postOnly) == PrintMember(Member("post_only", JBool(postOnly)))
  {
    hide Plain, KeyText, PrintMember;
    KeyedIsPrinted("post_only", JBool(postOnly));
  }

  lemma KeysArePlain()
    ensures Plain("ticker") && Plain("side") && Plain("count") && Plain("price")
    ensures Plain("time_in_force") && Plain("post_only") && Plain("client_order_id")
  {}

  lemma LongKeyIsPlain()
    ensures Plain("self_trade_prevention_type")
  {
    assert "self_trade_prevention_type" == "self_trade_pr" + "evention_type";
  }

  lemma SideTextIsPlain(side: OrderSide)
    ensures Plain(SideText(side))
  {}

  lemma TifTextIsPlain(tif: TimeInForce)
    ensures Plain(TifText(tif))
  {}

  lemma StpTextIsPlain(stp: SelfTradePrevention)
    ensures Plain(StpText(stp))
  {}

  /** The texts of all members but the ticker and the client id are printed members. */
  lemma TextsArePrinted(o: OrderRequest)
    requires Plain(o.count) && Plain(o.price)
    ensures forall i :: 0 < i < 7 ==> MemberTexts(o)[i] == PrintMember(OrderMembers(o)[i])
    ensures Plain(o.ticker) ==> MemberTexts(o)[0] == PrintMember(OrderMembers(o)[0])
    ensures Plain(o.clientOrderId) ==> MemberTexts(o)[7] == PrintMember(OrderMembers(o)[7])
  {
    hide Plain, RawMember, PrintMember, PostOnlyMember, SideText, TifText, StpText;
    KeysArePlain();
    LongKeyIsPlain();
    SideTextIsPlain(o.side);
    TifTextIsPlain(o.timeInForce);
    StpTextIsPlain(o.selfTradePrevention);
    if Plain(o.ticker) { RawMemberIsPrinted("ticker", o.ticker); }
    RawMemberIsPrinted("side", SideText(o.side));
    RawMemberIsPrinted("count", o.count);
    RawMemberIsPrinted("price", o.price);
    RawMemberIsPrinted("time_in_force", TifText(o.timeInForce));
    RawMemberIsPrinted("self_trade_prevention_type", StpText(o.selfTradePrevention));
    PostOnlyIsPrinted(o.postOnly);
    if Plain(o.clientOrderId) { RawMemberIsPrinted("client_order_id", o.clientOrderId); }
  }

  lemma {:induction false} JoinedIsPrinted(ts: seq<string>, ms: seq<Member>)
    requires ts != [] && |ts| == |ms| && forall i :: 0 <= i < |ts| ==> ts[i] == PrintMember(ms[i])
    ensures Joined(ts) == PrintMember(ms[0]) + PrintMembers(ms[1..])
    decreases ts
  {
    hide PrintMember;
    if |ts| > 1 {
      JoinedIsPrinted(ts[1..], ms[1..]);
      var rest := ms[1..];
      assert PrintMembers(rest) == "," + (PrintMember(rest[0]) + PrintMembers(rest[1..]));
    }
  }

  lemma DigitsArePlain(t: string)
    requires Numeral(t, 10)
    ensures Plain(t)
  {
    forall i | 0 <= i < |t| ensures IsPlain(t[i]) { assert DigitOf(t[i]) < 10; }
  }

  lemma NumbersArePlain(count: nat, price: nat)
    ensures Plain(CountText(count)) && Plain(PriceToDollars(price))
  {
    DigitsArePlain(Decimal(count));
    DigitsArePlain(Decimal(price / 1000));
    ThreeDigitsValue(price % 1000);
    DigitsArePlain(ThreeDigits(price % 1000));
  }

  // ---- forward: what the exchange reads

  /** Keys in the order of the text; no two are equal. */
  lemma KeysDiffer(o: OrderRequest, i: nat, j: nat)
    requires i < j < 8
    ensures OrderMembers(o)[i].key != OrderMembers(o)[j].key
  {
    var ms := OrderMembers(o);
    assert |ms[0].key| == 6 && |ms[1].key| == 4 && |ms[2].key| == 5 && |ms[3].key| == 5 && |ms[4].key| == 13;
    assert |ms[5].key| == 26 && |ms[6].key| == 9 && |ms[7].key| == 15;
    assert ms[2].key[0] == 'c' && ms[3].key[0] == 'p';
  }

  lemma {:induction false} FindEmplaceAll(acc: seq<Member>, ms: seq<Member>, key: string)
    ensures Find(EmplaceAll(acc, ms), key) == if Find(acc, key).Some? then Find(acc, key) else Find(ms, key)
    decreases ms
  {
    if ms != [] {
      FindEmplace(acc, ms[0], key);
      FindEmplaceAll(Emplace(acc, ms[0]), ms[1..], key);
    }
  }

  lemma {:induction false} FindDistinct(ms: seq<Member>, i: nat)
    requires i < |ms| && forall j :: 0 <= j < i ==> ms[j].key != ms[i].key
    ensures Find(ms, ms[i].key) == Some(ms[i].value)
  {
    if i > 0 { FindDistinct(ms[1..], i - 1); }
  }

  lemma SerializedIsPrinted(o: OrderRequest)
    requires Plain(o.ticker) && Plain(o.count) && Plain(o.price) && Plain(o.clientOrderId)
    ensures SerializeOrderRequest(o) == PrintObject(OrderMembers(o))
  {
    SizesAre(o);
    hide Plain, MemberTexts, OrderMembers, PrintMember, Joined, PrintMembers;
    TextsArePrinted(o);
    var ts, ms := MemberTexts(o), OrderMembers(o);
    assert forall i :: 0 <= i < 8 ==> ts[i] == PrintMember(ms[i]);
    JoinedIsPrinted(ts, ms);
    assert "{" + PrintMember(ms[0]) + PrintMembers(ms[1..]) == "{" + (PrintMember(ms[0]) + PrintMembers(ms[1..]));
  }

  lemma OrderReadsBack(o: OrderRequest)
    requires Plain(o.ticker) && Plain(o.count) && Plain(o.price) && Plain(o.clientOrderId)
    ensures ParseJson(SerializeOrderRequest(o)) == Some(JObject(EmplaceAll([], OrderMembers(o))))
  {
    SerializedIsPrinted(o);
    SizesAre(o);
    LeavesArePrintable(o);
    hide ParseJson, PrintObject, EmplaceAll, OrderMembers, SerializeOrderRequest, Printable;
    PrintedObjectParses(OrderMembers(o));
  }

  lemma SizesAre(o: OrderRequest)
    ensures |MemberTexts(o)| == 8 && |OrderMembers(o)| == 8
  {}

  lemma LeavesArePrintable(o: OrderRequest)
    ensures forall i :: 0 <= i < 8 ==> Printable(OrderMembers(o)[i].value, MAX_DEPTH - 1)
  {}

  /** An order built from a signal, sent and parsed again carries the same ticker, side, client id, count and
      price, the last two as exact numbers. */
  lemma OrderRoundTrip(ticker: string, signal: Signal, clientOrderId: string)
    requires Plain(ticker) && Plain(clientOrderId)
    requires 0 <= signal.price <= I64_MAX && 0 <= signal.count <= I64_MAX
    ensures var o := MakeIocOrder(ticker, signal, clientOrderId);
      var json := ParseJson(SerializeOrderRequest(o));
      && json.Some? && json.value.JObject?
      && var ms := json.value.members;
         && GetString(ms, "ticker") == Some(ticker)
         && GetString(ms, "client_order_id") == Some(clientOrderId)
         && (GetString(ms, "side") == Some("bid") <==> signal.side == Bid)
         && (GetString(ms, "side") == Some("ask") <==> signal.side == Ask)
         && GetString(ms, "time_in_force") == Some("immediate_or_cancel")
         && GetString(ms, "self_trade_prevention_type") == Some("taker_at_cross")
         && Find(ms, "post_only") == Some(JBool(false))
         && GetString(ms, "count").Some? && FixedPoint.ParsedFixed(GetString(ms, "count").value, 0) == Some(signal.count)
         && GetString(ms, "price").Some? && FixedPoint.ParsedFixed(GetString(ms, "price").value, 3) == Some(signal.price)
  {
    var o := MakeIocOrder(ticker, signal, clientOrderId);
    NumbersArePlain(signal.count, signal.price);
    hide ParseJson, SerializeOrderRequest, EmplaceAll, FixedPoint.ParsedFixed, CountText, PriceToDollars, Plain;
    RequestReadsBack(o);
    CountReadsBack(signal.count);
    PriceReadsBack(signal.price);
  }

  /** What any order with plain texts says on the wire, word for word. */
  lemma RequestReadsBack(o: OrderRequest)
    requires Plain(o.ticker) && Plain(o.count) && Plain(o.price) && Plain(o.clientOrderId)
    ensures var json := ParseJson(SerializeOrderRequest(o));
      && json.Some? && json.value.JObject?
      && var ms := json.value.members;
         && GetString(ms, "ticker") == Some(o.ticker) && GetString(ms, "client_order_id") == Some(o.clientOrderId)
         && GetString(ms, "count") == Some(o.count) && GetString(ms, "price") == Some(o.price)
         && (GetString(ms, "side") == Some("bid") <==> o.side == Bid)
         && (GetString(ms, "side") == Some("ask") <==> o.side == Ask)
         && (GetString(ms, "time_in_force") == Some("fill_or_kill") <==> o.timeInForce == FillOrKill)
         && (GetString(ms, "time_in_force") == Some("good_till_canceled") <==> o.timeInForce == GoodTillCanceled)
         && (GetString(ms, "time_in_force") == Some("immediate_or_cancel") <==> o.timeInForce == ImmediateOrCancel)
         && (GetString(ms, "self_trade_prevention_type") == Some("maker") <==> o.selfTradePrevention == Maker)
         && (GetString(ms, "self_trade_prevention_type") == Some("taker_at_cross") <==> o.selfTradePrevention == TakerAtCross)
         && Find(ms, "post_only") == Some(JBool(o.postOnly))
  {
    hide ParseJson, SerializeOrderRequest, EmplaceAll, Plain, Find;
    OrderReadsBack(o);
    FieldsReadBack(o);
    WordsDiffer();
  }

  lemma WordsDiffer()
    ensures "bid" != "ask" && "maker" != "taker_at_cross" && "fill_or_kill" != "good_till_canceled"
    ensures "fill_or_kill" != "immediate_or_cancel" && "good_till_canceled" != "immediate_or_cancel"
  {
    assert "bid"[0] != "ask"[0] && |"maker"| != |"taker_at_cross"| && |"fill_or_kill"| == 12;
    assert |"good_till_canceled"| == 18 && |"immediate_or_cancel"| == 19;
  }

  lemma FieldsReadBack(o: OrderRequest)
    ensures var ms := EmplaceAll([], OrderMembers(o));
      && GetString(ms, "ticker") == Some(o.ticker) && GetString(ms, "side") == Some(SideText(o.side))
      && GetString(ms, "count") == Some(o.count) && GetString(ms, "price") == Some(o.price)
      && GetString(ms, "time_in_force") == Some(TifText(o.timeInForce))
      && GetString(ms, "self_trade_prevention_type") == Some(StpText(o.selfTradePrevention))
      && Find(ms, "post_only") == Some(JBool(o.postOnly))
      && GetString(ms, "client_order_id") == Some(o.clientOrderId)
  {
    hide EmplaceAll, Find, SideText, TifText, StpText;
    FieldReadsBack(o, 0);
    FieldReadsBack(o, 1);
    FieldReadsBack(o, 2);
    FieldReadsBack(o, 3);
    FieldReadsBack(o, 4);
    FieldReadsBack(o, 5);
    FieldReadsBack(o, 6);
    FieldReadsBack(o, 7);
  }

  lemma FieldReadsBack(o: OrderRequest, i: nat)
    requires i < 8
    ensures Find(EmplaceAll([], OrderMembers(o)), OrderMembers(o)[i].key) == Some(OrderMembers(o)[i].value)
  {
    hide EmplaceAll;
    var ms := OrderMembers(o);
    forall j | 0 <= j < i ensures ms[j].key != ms[i].key { KeysDiffer(o, j, i); }
    FindDistinct(ms, i);
    FindEmplaceAll([], ms, ms[i].key);
  }

  // ---- the text itself

  /** Decimal numbers have no leading zeros. */
  lemma {:induction false} DecimalIsShortest(n: nat)
    ensures Digits(Decimal(n), n) && (n > 0 ==> Decimal(n)[0] != '0') && (n == 0 ==> Decimal(n) == "0")
  {
    DigitsAreTheValue(Decimal(n), n);
    if n >= 10 { DecimalIsShortest(n / 10); }
  }

  /** Counts have two decimals: 5 is "5.00". */
  lemma CountIsWritten(count: nat)
    ensures exists w :: Digits(w, count) && (count > 0 ==> w[0] != '0') && CountText(count) == w + ".00"
  {
    DecimalIsShortest(count);
  }

  /** Prices are in dollars with four decimals: 595 is "0.5950". */
  lemma PriceIsWritten(price: nat)
    ensures exists w, f ::
      Digits(w, price / 1000) && |f| == 4 && Digits(f, price % 1000 * 10) && PriceToDollars(price) == w + "." + f
  {
    var w, f := Decimal(price / 1000), ThreeDigits(price % 1000) + "0";
    DecimalIsShortest(price / 1000);
    ThreeDigitsValue(price % 1000);
    ValueSnoc(ThreeDigits(price % 1000), '0', 10);
    DigitsAreTheValue(f, price % 1000 * 10);
    assert PriceToDollars(price) == w + "." + f;
  }

  lemma MemberThen(key: string, opening: string, text: string, rest: string)
    requires opening == "\"" + key + "\":\""
    ensures RawMember(key, text) + ("," + rest) == opening + text + "\"," + rest
  {
    assert RawMember(key, text) == opening + text + "\"";
    assert (opening + text + "\"") + ("," + rest) == opening + text + ("\"" + "," + rest);
    assert "\"" + "," == "\",";
  }

  lemma JoinedThen(t: string, ts: seq<string>)
    requires ts != []
    ensures Joined([t] + ts) == t + ("," + Joined(ts))
  {
    assert ([t] + ts)[1..] == ts;
  }

  lemma KeysInQuotes()
    ensures "\"ticker\":\"" == "\"" + "ticker" + "\":\"" && "\"side\":\"" == "\"" + "side" + "\":\""
    ensures "\"count\":\"" == "\"" + "count" + "\":\"" && "\"price\":\"" == "\"" + "price" + "\":\""
    ensures "\"time_in_force\":\"" == "\"" + "time_in_force" + "\":\""
    ensures "\"post_only\":" == "\"" + "post_only" + "\":"
  {}

  lemma LongKeysInQuotes()
    ensures "\"self_trade_prevention_type\":\"" == "\"" + "self_trade_prevention_type" + "\":\""
    ensures "\"client_order_id\":\"" == "\"" + "client_order_id" + "\":\""
  {}

  /** The request, byte for byte, from its last members to its first. */
  lemma RequestText(o: OrderRequest)
    ensures
      var client := "\"client_order_id\":\"" + o.clientOrderId + "\"}";
      var post := "\"post_only\":" + (if o.postOnly then "true" else "false") + "," + client;
      var stp := match o.selfTradePrevention case Maker => "maker" case TakerAtCross => "taker_at_cross";
      var self := "\"self_trade_prevention_type\":\"" + stp + "\"," + post;
      var tif := match o.timeInForce
        case FillOrKill => "fill_or_kill"
        case GoodTillCanceled => "good_till_canceled"
        case ImmediateOrCancel => "immediate_or_cancel";
      var time := "\"time_in_force\":\"" + tif + "\"," + self;
      var price := "\"price\":\"" + o.price + "\"," + time;
      var count := "\"count\":\"" + o.count + "\"," + price;
      var side := "\"side\":\"" + (match o.side case Bid => "bid" case Ask => "ask") + "\"," + count;
      SerializeOrderRequest(o) == "{" + ("\"ticker\":\"" + o.ticker + "\"," + side)
  {
    var ts := MemberTexts(o);
    var (side, tif, stp) := (SideText(o.side), TifText(o.timeInForce), StpText(o.selfTradePrevention));
    KeysInQuotes();
    LongKeysInQuotes();
    hide MemberTexts, RawMember, Joined, PostOnlyMember;
    var c7 := LastMemberText(o);
    var c6 := "\"post_only\":" + (if o.postOnly then "true" else "false") + "," + c7;
    PostOnlyText(o.postOnly, c7);
    MemberThen("self_trade_prevention_type", "\"self_trade_prevention_type\":\"", stp, c6);
    var c5 := "\"self_trade_prevention_type\":\"" + stp + "\"," + c6;
    MemberThen("time_in_force", "\"time_in_force\":\"", tif, c5);
    var c4 := "\"time_in_force\":\"" + tif + "\"," + c5;
    MemberThen("price", "\"price\":\"", o.price, c4);
    var c3 := "\"price\":\"" + o.price + "\"," + c4;
    MemberThen("count", "\"count\":\"", o.count, c3);
    var c2 := "\"count\":\"" + o.count + "\"," + c3;
    MemberThen("side", "\"side\":\"", side, c2);
    var c1 := "\"side\":\"" + side + "\"," + c2;
    MemberThen("ticker", "\"ticker\":\"", o.ticker, c1);
    JoinedTexts(o);
  }

  lemma LastMemberText(o: OrderRequest) returns (text: string)
    ensures text == "\"client_order_id\":\"" + o.clientOrderId + "\"}"
    ensures text == RawMember("client_order_id", o.clientOrderId) + "}"
  {
    LongKeysInQuotes();
    text := "\"client_order_id\":\"" + o.clientOrderId + "\"}";
    assert RawMember("client_order_id", o.clientOrderId) == "\"client_order_id\":\"" + o.clientOrderId + "\"";
    assert "\"}" == "\"" + "}";
  }

  lemma PostOnlyText(postOnly: bool, rest: string)
    ensures PostOnlyMember(postOnly) + ("," + rest) == "\"post_only\":" + (if postOnly then "true" else "false") + "," + rest
  {
    KeysInQuotes();
  }

  lemma JoinedTexts(o: OrderRequest)
    ensures var ts := MemberTexts(o);
      && |ts| == 8
      && SerializeOrderRequest(o) == "{" + (RawMember("ticker", o.ticker) + ("," + Joined(ts[1..])))
      && Joined(ts[1..]) == RawMember("side", SideText(o.side)) + ("," + Joined(ts[2..]))
      && Joined(ts[2..]) == RawMember("count", o.count) + ("," + Joined(ts[3..]))
      && Joined(ts[3..]) == RawMember("price", o.price) + ("," + Joined(ts[4..]))
      && Joined(ts[4..]) == RawMember("time_in_force", TifText(o.timeInForce)) + ("," + Joined(ts[5..]))
      && Joined(ts[5..]) == RawMember("self_trade_prevention_type", StpText(o.selfTradePrevention)) + ("," + Joined(ts[6..]))
      && Joined(ts[6..]) == PostOnlyMember(o.postOnly) + ("," + Joined(ts[7..]))
      && Joined(ts[7..]) == RawMember("client_order_id", o.clientOrderId) + "}"
  {
    hide RawMember, PostOnlyMember, SideText, TifText, StpText;
    var ts := MemberTexts(o);
    forall k | 0 <= k < 7 ensures Joined(ts[k..]) == ts[k] + ("," + Joined(ts[k + 1..])) {
      assert ts[k..] == [ts[k]] + ts[k + 1..];
      JoinedThen(ts[k], ts[k + 1..]);
    }
    assert ts[0..] == ts;
  }
}
