/** Exposure: the confirmed position plus the fills that order responses reported but the fill channel has
    not delivered yet. It is the exchange's position, and it stays within the cap. */
module Positions {
  import opened Text
  import opened KalshiMessages
  import opened MessageFields
  import opened Strategies
  import FixedPoint
  import JsonTree

  // ---- sums over a map

  ghost function Sum(m: map<string, int>): int {
    if m == map[] then 0 else var k :| k in m; m[k] + Sum(m - {k})
  }

  lemma {:induction false} SumSplit(m: map<string, int>, k: string)
    requires k in m
    ensures Sum(m) == m[k] + Sum(m - {k})
    decreases |m|
  {
    var c :| c in m && Sum(m) == m[c] + Sum(m - {c});
    if c != k {
      SumSplit(m - {c}, k);
      SumSplit(m - {k}, c);
      assert m - {c} - {k} == m - {k} - {c};
    }
  }

  function ValueAt(m: map<string, int>, k: string): int { if k in m then m[k] else 0 }

  lemma SumUpdate(m: map<string, int>, k: string, v: int)
    ensures Sum(m[k := v]) == Sum(m) - ValueAt(m, k) + v
  {
    SumSplit(m[k := v], k);
    if k in m {
      SumSplit(m, k);
      assert m[k := v] - {k} == m - {k};
    } else {
      assert m[k := v] - {k} == m;
    }
  }

  lemma SumRemove(m: map<string, int>, k: string)
    ensures Sum(m - {k}) == Sum(m) - ValueAt(m, k)
  {
    if k in m { SumSplit(m, k); } else { assert m - {k} == m; }
  }

  // ---- the bot's ledger

  datatype Ledger = Ledger(positions: map<string, int>, unconfirmed: map<string, int>)

  const EMPTY_LEDGER := Ledger(map[], map[])

  ghost function Exposure(l: Ledger, ticker: string): int { ValueAt(l.positions, ticker) + Sum(l.unconfirmed) }

  /** Whole contracts only. */
  function ParseContracts(t: string): Option<int> { FixedPoint.ParsedFixed(t, 0) }

  function Signed(side: OrderSide, n: int): int { if side == Bid then n else -n }

  function ReadResponse(response: Option<JsonTree.JsonValue>): Option<OrderResponse> {
    match response
    case Some(json) => ParseOrderResponse(json)
    case None => None
  }

  /** The order and fill count a response reports, if it can be read. */
  function ReportedFill(response: Option<JsonTree.JsonValue>): Option<(string, int)> {
    match ReadResponse(response)
    case None => None
    case Some(r) =>
      match ParseContracts(r.fillCount)
      case None => None
      case Some(n) => Some((r.orderId, n))
  }

  /** The response can be read: its members name order `id` and say that `n` contracts were filled. */
  ghost predicate Reports(response: Option<JsonTree.JsonValue>, id: string, n: int) {
    && response.Some? && response.value.JObject?
    && var ms := response.value.members;
       && HasText(ms, "order_id", id)
       && (exists t :: HasText(ms, "fill_count", t) && FixedPoint.Denotes(t, 0, n)) && -I64_MAX <= n <= I64_MAX
       && (exists t :: HasText(ms, "remaining_count", t)) && (exists k: nat :: HasU64(ms, "ts_ms", k))
  }

  ghost predicate Readable(response: Option<JsonTree.JsonValue>) { exists id, n :: Reports(response, id, n) }

  /** A fill is booked exactly as the response's members report it. */
  lemma ReportIsRead(response: Option<JsonTree.JsonValue>, id: string, n: int)
    ensures ReportedFill(response) == Some((id, n)) <==> Reports(response, id, n)
  {
    hide HasU64, HasText, FixedPoint.ParsedFixed, FixedPoint.Denotes, ParseOrderResponse;
    if response.Some? && response.value.JObject? {
      var ms := response.value.members;
      var r := ParseOrderResponse(response.value);
      if r.Some? {
        OrderResponseIsRead(response.value, r.value);
        FixedPoint.ParseFixedIsExact(r.value.fillCount, 0, n);
        OneText(ms, "order_id", r.value.orderId);
        OneText(ms, "fill_count", r.value.fillCount);
      }
      if Reports(response, id, n) { ReportHasResponse(response.value, id, n); }
    } else if response.Some? {
      NoObjectNoResponse(response.value);
    }
  }

  lemma NoObjectNoResponse(json: JsonTree.JsonValue)
    requires !json.JObject?
    ensures ParseOrderResponse(json).None?
  {}

  lemma OneText(ms: Fields, key: string, t: string)
    requires HasText(ms, key, t)
    ensures forall u :: HasText(ms, key, u) ==> u == t
  {}

  lemma ReportHasResponse(json: JsonTree.JsonValue, id: string, n: int)
    requires Reports(Some(json), id, n)
    ensures ParseOrderResponse(json).Some?
  {
    hide HasU64, HasText, FixedPoint.Denotes, ParseOrderResponse;
    var ms := json.members;
    var filled :| HasText(ms, "fill_count", filled);
    var remaining :| HasText(ms, "remaining_count", remaining);
    var k: nat :| HasU64(ms, "ts_ms", k);
    if client :| HasText(ms, "client_order_id", client) {
      OrderResponseIsRead(json, OrderResponse(id, filled, remaining, k, client));
    } else {
      OrderResponseIsRead(json, OrderResponse(id, filled, remaining, k, ""));
    }
  }

  /** An unreadable response books nothing. */
  lemma ReadableIsRead(response: Option<JsonTree.JsonValue>)
    ensures ReportedFill(response).Some? <==> Readable(response)
  {
    hide ReportedFill, Reports;
    var r := ReportedFill(response);
    if r.Some? { ReportIsRead(response, r.value.0, r.value.1); }
    if Readable(response) {
      var id, n :| Reports(response, id, n);
      ReportIsRead(response, id, n);
    }
  }

  /** The ledger after an order of this side got this response. */
  function Submitted(l: Ledger, side: OrderSide, response: Option<JsonTree.JsonValue>): Ledger {
    match ReportedFill(response)
    case None => l
    case Some((id, filled)) =>
      if filled > 0
      then l.(unconfirmed := l.unconfirmed[id := ValueAt(l.unconfirmed, id) + Signed(side, filled)])
      else l
  }

  /** The ledger after a message of the fill channel. */
  function Filled(l: Ledger, fill: Fill): Ledger {
    match ParseContracts(fill.countFp)
    case None => l
    case Some(n) =>
      var signed := if fill.action == Buy then n else -n;
      var positions := l.positions[fill.marketTicker := ValueAt(l.positions, fill.marketTicker) + signed];
      if fill.orderId !in l.unconfirmed then Ledger(positions, l.unconfirmed)
      else
        var before := l.unconfirmed[fill.orderId];
        var after := before - signed;
        if after == 0 || (before > 0) != (after > 0) then Ledger(positions, l.unconfirmed - {fill.orderId})
        else Ledger(positions, l.unconfirmed[fill.orderId := after])
  }

  /** What a response reports as filled is added to what is unconfirmed of its order, bought as positive and sold
      as negative; nothing else changes, and nothing at all if it cannot be read or reports no fill. */
  lemma ResponseIsBooked(l: Ledger, side: OrderSide, response: Option<JsonTree.JsonValue>)
    ensures forall id, n :: Reports(response, id, n) && n > 0 ==>
      && ValueAt(Submitted(l, side, response).unconfirmed, id)
         == ValueAt(l.unconfirmed, id) + (match side case Bid => n case Ask => -n)
      && Submitted(l, side, response).unconfirmed - {id} == l.unconfirmed - {id}
    ensures (forall id, n :: Reports(response, id, n) ==> n <= 0) ==> Submitted(l, side, response) == l
    ensures Submitted(l, side, response).positions == l.positions
  {
    hide Reports, ReportedFill;
    forall id, n ensures ReportedFill(response) == Some((id, n)) <==> Reports(response, id, n) {
      ReportIsRead(response, id, n);
    }
    var r := ReportedFill(response);
    assert r.Some? ==> Reports(response, r.value.0, r.value.1);
  }

  /** A fill of `n` contracts moves its market's position by `n`, up if bought and down if sold, and takes as much
      off what is unconfirmed of its order; an amount that would reach zero or change its sign is dropped. */
  lemma FillIsBooked(l: Ledger, fill: Fill, n: int)
    requires FixedPoint.Denotes(fill.countFp, 0, n) && -I64_MAX <= n <= I64_MAX
    ensures var (l', signed) := (Filled(l, fill), match fill.action case Buy => n case Sell => -n);
      && (forall t :: ValueAt(l'.positions, t) == ValueAt(l.positions, t) + if t == fill.marketTicker then signed else 0)
      && l'.unconfirmed - {fill.orderId} == l.unconfirmed - {fill.orderId}
      && (fill.orderId !in l.unconfirmed ==> fill.orderId !in l'.unconfirmed)
      && (fill.orderId in l.unconfirmed ==>
            var (before, after) := (l.unconfirmed[fill.orderId], l.unconfirmed[fill.orderId] - signed);
            if (before > 0 && after > 0) || (before <= 0 && after < 0)
            then fill.orderId in l'.unconfirmed && l'.unconfirmed[fill.orderId] == after
            else fill.orderId !in l'.unconfirmed)
  {
    hide FixedPoint.ParsedFixed, FixedPoint.Denotes;
    FixedPoint.ParseFixedIsExact(fill.countFp, 0, n);
  }

  /** Any other count changes nothing. */
  lemma UnreadableFillIsIgnored(l: Ledger, fill: Fill)
    requires forall n :: FixedPoint.Denotes(fill.countFp, 0, n) ==> !(-I64_MAX <= n <= I64_MAX)
    ensures Filled(l, fill) == l
  {
    hide FixedPoint.ParsedFixed, FixedPoint.Denotes;
    var n := ParseContracts(fill.countFp);
    if n.Some? { FixedPoint.ParseFixedIsExact(fill.countFp, 0, n.value); }
  }

  // ---- the exchange's orders

  /** An executed order: how much the exchange filled, how much of that the fill channel has delivered, and
      whether the bot could read the response. */
  datatype Order = Order(side: OrderSide, filled: nat, delivered: nat, known: bool)

  type Orders = map<string, Order>

  ghost predicate Sane(os: Orders) { forall id :: id in os ==> os[id].delivered <= os[id].filled }

  ghost function TrueAmounts(os: Orders): map<string, int> { map id | id in os :: Signed(os[id].side, os[id].filled) }

  ghost function Delivered(os: Orders): map<string, int> { map id | id in os :: Signed(os[id].side, os[id].delivered) }

  ghost function Outstanding(os: Orders): map<string, int> {
    map id | id in os && os[id].known && os[id].delivered < os[id].filled ::
      Signed(os[id].side, os[id].filled - os[id].delivered)
  }

  /** What was filled on orders whose response was lost and has not been delivered yet. */
  ghost function Hidden(os: Orders): map<string, int> {
    map id | id in os && !os[id].known && os[id].delivered < os[id].filled ::
      Signed(os[id].side, os[id].filled - os[id].delivered)
  }

  ghost function TruePosition(os: Orders): int { Sum(TrueAmounts(os)) }

  /** The ledger records exactly what was delivered and what is outstanding on known orders. */
  ghost predicate Balanced(os: Orders, l: Ledger, ticker: string) {
    Sane(os) && ValueAt(l.positions, ticker) == Sum(Delivered(os)) && l.unconfirmed == Outstanding(os)
  }

  lemma WithoutOrder(os: Orders, k: string)
    ensures TrueAmounts(os) - {k} == TrueAmounts(os - {k}) && Delivered(os) - {k} == Delivered(os - {k})
    ensures Outstanding(os) - {k} == Outstanding(os - {k}) && Hidden(os) - {k} == Hidden(os - {k})
  {}

  lemma OneOrderSplits(os: Orders, k: string)
    requires Sane(os) && k in os
    ensures ValueAt(TrueAmounts(os), k)
         == ValueAt(Delivered(os), k) + ValueAt(Outstanding(os), k) + ValueAt(Hidden(os), k)
  {}

  lemma {:induction false} AmountsSplit(os: Orders)
    requires Sane(os)
    ensures Sum(TrueAmounts(os)) == Sum(Delivered(os)) + Sum(Outstanding(os)) + Sum(Hidden(os))
    decreases |os|
  {
    if os == map[] {
      assert TrueAmounts(os) == map[] && Delivered(os) == map[] && Outstanding(os) == map[] && Hidden(os) == map[];
    } else {
      var k :| k in os;
      AmountsSplit(os - {k});
      WithoutOrder(os, k);
      OneOrderSplits(os, k);
      hide TrueAmounts, Delivered, Outstanding, Hidden, Sum, ValueAt;
      SumRemove(TrueAmounts(os), k);
      SumRemove(Delivered(os), k);
      SumRemove(Outstanding(os), k);
      SumRemove(Hidden(os), k);
    }
  }

  /** The exposure is the true position exactly if nothing is hidden. */
  lemma ExposureIsTrueUpToLostResponses(os: Orders, l: Ledger, ticker: string)
    requires Balanced(os, l, ticker)
    ensures Exposure(l, ticker) == TruePosition(os) - Sum(Hidden(os))
  {
    AmountsSplit(os);
  }

  // ---- steps

  /** An order was placed on a signal and executed as order `id` for `filled` contracts; or a fill arrived. */
  datatype Event =
    | Placed(signal: Signal, response: Option<JsonTree.JsonValue>, id: string, filled: nat)
    | FillArrived(fill: Fill)

  /** The fill is of `n` contracts. */
  ghost predicate IsFillOf(fill: Fill, n: nat) { FixedPoint.Denotes(fill.countFp, 0, n) && n <= I64_MAX }

  ghost function FillSize(fill: Fill): nat
    requires exists n :: IsFillOf(fill, n)
  {
    var n :| IsFillOf(fill, n); n
  }

  lemma SizeIsRead(fill: Fill)
    requires exists n :: IsFillOf(fill, n)
    ensures ParseContracts(fill.countFp) == Some(FillSize(fill))
  {
    FixedPoint.ParseFixedIsExact(fill.countFp, 0, FillSize(fill));
  }

  datatype World = World(orders: Orders, ledger: Ledger)

  const START := World(map[], EMPTY_LEDGER)

  /** Orders get fresh ids and fill at most their size, and a readable response tells the truth. A fill
      belongs to an order of this market on its side and is a part not delivered before. */
  ghost predicate Possible(ticker: string, w: World, e: Event) {
    match e
    case Placed(signal, response, id, filled) =>
      && id !in w.orders && filled <= signal.count
      && (Readable(response) ==> Reports(response, id, filled))
    case FillArrived(fill) =>
      && fill.marketTicker == ticker && fill.orderId in w.orders
      && var o := w.orders[fill.orderId];
         && (fill.action == Buy <==> o.side == Bid)
         && (exists n :: IsFillOf(fill, n)) && FillSize(fill) <= o.filled - o.delivered
  }

  ghost function Happens(ticker: string, w: World, e: Event): World
    requires Possible(ticker, w, e)
  {
    match e
    case Placed(signal, response, id, filled) =>
      World(w.orders[id := Order(signal.side, filled, 0, Readable(response))],
            Submitted(w.ledger, signal.side, response))
    case FillArrived(fill) =>
      var o := w.orders[fill.orderId];
      World(w.orders[fill.orderId := o.(delivered := o.delivered + FillSize(fill))],
            Filled(w.ledger, fill))
  }

  lemma NewAmounts(os: Orders, id: string, o: Order)
    requires id !in os && o.delivered == 0
    ensures Delivered(os[id := o]) == Delivered(os)[id := 0]
    ensures TrueAmounts(os[id := o]) == TrueAmounts(os)[id := Signed(o.side, o.filled)]
    ensures id !in Delivered(os) && id !in TrueAmounts(os)
  {
    assert Delivered(os[id := o]) == Delivered(os)[id := 0];
    assert TrueAmounts(os[id := o]) == TrueAmounts(os)[id := Signed(o.side, o.filled)];
  }

  lemma NewOrder(os: Orders, id: string, o: Order)
    requires id !in os && o.delivered == 0
    ensures Delivered(os[id := o]) == Delivered(os)[id := 0]
    ensures TrueAmounts(os[id := o]) == TrueAmounts(os)[id := Signed(o.side, o.filled)]
    ensures Outstanding(os[id := o])
         == if o.known && o.filled > 0 then Outstanding(os)[id := Signed(o.side, o.filled)] else Outstanding(os)
    ensures id !in Outstanding(os) && id !in Delivered(os) && id !in TrueAmounts(os)
  {
    NewAmounts(os, id, o);
    OutstandingAt(os, id, o);
    IsOutstanding(os, id);
    hide Outstanding, Delivered, TrueAmounts;
    assert id !in Outstanding(os) ==> Outstanding(os) - {id} == Outstanding(os);
  }

  lemma PlacedKeepsBalance(ticker: string, w: World, e: Event)
    requires e.Placed? && Possible(ticker, w, e) && Balanced(w.orders, w.ledger, ticker)
    ensures var w' := Happens(ticker, w, e);
      && Balanced(w'.orders, w'.ledger, ticker)
      && TruePosition(w'.orders) == TruePosition(w.orders) + Signed(e.signal.side, e.filled)
  {
    hide ReportedFill, Reports, Readable, Sum, Delivered, TrueAmounts, Outstanding;
    ReadableIsRead(e.response);
    ReportIsRead(e.response, e.id, e.filled);
    NewOrder(w.orders, e.id, Order(e.signal.side, e.filled, 0, Readable(e.response)));
    SumUpdate(Delivered(w.orders), e.id, 0);
    SumUpdate(TrueAmounts(w.orders), e.id, Signed(e.signal.side, e.filled));
  }

  lemma PartDelivered(os: Orders, id: string, n: nat)
    requires id in os && os[id].delivered + n <= os[id].filled
    ensures var o := os[id];
      var os' := os[id := o.(delivered := o.delivered + n)];
      && Delivered(os') == Delivered(os)[id := Signed(o.side, o.delivered + n)]
      && id in Delivered(os) && Delivered(os)[id] == Signed(o.side, o.delivered)
      && TrueAmounts(os') == TrueAmounts(os)
  {}

  ghost function Remaining(o: Order): int { Signed(o.side, o.filled - o.delivered) }

  /** Outstanding amounts change only for the order that changes. */
  lemma OutstandingAt(os: Orders, id: string, o: Order)
    ensures Outstanding(os[id := o])
         == if o.known && o.delivered < o.filled then Outstanding(os)[id := Remaining(o)] else Outstanding(os) - {id}
  {
    hide Outstanding, Remaining;
    var os' := os[id := o];
    var r := Outstanding(os');
    var want := if o.known && o.delivered < o.filled then Outstanding(os)[id := Remaining(o)] else Outstanding(os) - {id};
    forall k ensures (k in r <==> k in want) && (k in r ==> r[k] == want[k]) {
      IsOutstanding(os, k);
      IsOutstanding(os', k);
    }
    assert r == want;
  }

  lemma IsOutstanding(os: Orders, id: string)
    ensures id in Outstanding(os) <==> id in os && os[id].known && os[id].delivered < os[id].filled
    ensures id in Outstanding(os) ==> Outstanding(os)[id] == Remaining(os[id])
  {}

  lemma FillKeepsBalance(ticker: string, w: World, e: Event)
    requires e.FillArrived? && Possible(ticker, w, e) && Balanced(w.orders, w.ledger, ticker)
    ensures var w' := Happens(ticker, w, e);
      Balanced(w'.orders, w'.ledger, ticker) && TruePosition(w'.orders) == TruePosition(w.orders)
  {
    hide ParseContracts, FillSize, IsFillOf, Sum, Delivered, TrueAmounts, Outstanding;
    SizeIsRead(e.fill);
    var id := e.fill.orderId;
    var o, n := w.orders[id], FillSize(e.fill);
    PartDelivered(w.orders, id, n);
    OutstandingAt(w.orders, id, o.(delivered := o.delivered + n));
    IsOutstanding(w.orders, id);
    assert id !in Outstanding(w.orders) ==> Outstanding(w.orders) - {id} == Outstanding(w.orders);
    SumUpdate(Delivered(w.orders), id, Signed(o.side, o.delivered + n));
  }

  // ---- the cap

  /** What was filled on the orders of one side whose response was lost. */
  ghost function Lost(os: Orders, side: OrderSide): map<string, int> {
    map id | id in os && !os[id].known && os[id].side == side :: os[id].filled
  }

  /** The position is within the cap, give or take the fills of orders whose response was lost. */
  ghost predicate NearCap(os: Orders, cap: int) {
    -cap - Sum(Lost(os, Ask)) <= TruePosition(os) <= cap + Sum(Lost(os, Bid))
  }

  lemma LostWithout(os: Orders, k: string, side: OrderSide)
    ensures Lost(os, side) - {k} == Lost(os - {k}, side)
  {}

  lemma OneHidden(os: Orders, k: string)
    requires Sane(os) && k in os
    ensures -ValueAt(Lost(os, Ask), k) <= ValueAt(Hidden(os), k) <= ValueAt(Lost(os, Bid), k)
  {}

  /** What lost responses hide is at most what they lost. */
  lemma {:induction false} HiddenIsLost(os: Orders)
    requires Sane(os)
    ensures -Sum(Lost(os, Ask)) <= Sum(Hidden(os)) <= Sum(Lost(os, Bid))
    ensures Sum(Lost(os, Ask)) >= 0 && Sum(Lost(os, Bid)) >= 0
    decreases |os|
  {
    if os == map[] {
      assert Hidden(os) == map[] && Lost(os, Ask) == map[] && Lost(os, Bid) == map[];
    } else {
      var k :| k in os;
      HiddenIsLost(os - {k});
      WithoutOrder(os, k);
      LostWithout(os, k, Ask);
      LostWithout(os, k, Bid);
      OneHidden(os, k);
      LostIsFilled(os, k);
      hide Hidden, Lost, Sum, ValueAt;
      SumRemove(Hidden(os), k);
      SumRemove(Lost(os, Ask), k);
      SumRemove(Lost(os, Bid), k);
    }
  }

  lemma LostIsFilled(os: Orders, k: string)
    ensures ValueAt(Lost(os, Ask), k) >= 0 && ValueAt(Lost(os, Bid), k) >= 0
  {}

  lemma NewLost(os: Orders, id: string, o: Order, side: OrderSide)
    requires id !in os
    ensures Lost(os[id := o], side) == if !o.known && o.side == side then Lost(os, side)[id := o.filled] else Lost(os, side)
    ensures id !in Lost(os, side)
  {
    if !o.known && o.side == side {
      assert Lost(os[id := o], side) == Lost(os, side)[id := o.filled];
    } else {
      assert Lost(os[id := o], side) == Lost(os, side);
    }
  }

  lemma LostGrows(os: Orders, id: string, o: Order, side: OrderSide)
    requires id !in os
    ensures Sum(Lost(os[id := o], side)) >= Sum(Lost(os, side))
  {
    NewLost(os, id, o, side);
    hide Lost, Sum;
    SumUpdate(Lost(os, side), id, o.filled);
  }

  lemma LostIsKept(os: Orders, id: string, o: Order, side: OrderSide)
    requires id in os && o.known == os[id].known && o.side == os[id].side && o.filled == os[id].filled
    ensures Lost(os[id := o], side) == Lost(os, side)
  {}

  lemma FillKeepsCap(ticker: string, w: World, e: Event, cap: int)
    requires e.FillArrived? && Possible(ticker, w, e) && Balanced(w.orders, w.ledger, ticker) && NearCap(w.orders, cap)
    ensures NearCap(Happens(ticker, w, e).orders, cap)
  {
    hide Lost, Sum, TruePosition, Filled, FillSize, IsFillOf, Balanced;
    FillKeepsBalance(ticker, w, e);
    var id := e.fill.orderId;
    var o := w.orders[id].(delivered := w.orders[id].delivered + FillSize(e.fill));
    LostIsKept(w.orders, id, o, Ask);
    LostIsKept(w.orders, id, o, Bid);
  }

  /** An order the strategy asked for keeps the bound, whether or not its response is read. */
  lemma PlacedKeepsCap(cfg: Config, ticker: string, w: World, e: Event)
    requires e.Placed? && Possible(ticker, w, e) && Signalled(cfg, ticker, w, e)
    requires Balanced(w.orders, w.ledger, ticker) && NearCap(w.orders, cfg.maxPosition)
    ensures NearCap(Happens(ticker, w, e).orders, cfg.maxPosition)
  {
    PlacedKeepsBalance(ticker, w, e);
    SignalRespectsCap(cfg, ticker, w, e);
    ExposureIsTrueUpToLostResponses(w.orders, w.ledger, ticker);
    HiddenIsLost(w.orders);
    hide Lost, Sum, TruePosition, Exposure, Readable, Reports, Submitted, Balanced, Signalled;
    var o := Order(e.signal.side, e.filled, 0, Readable(e.response));
    LostGrows(w.orders, e.id, o, Ask);
    LostGrows(w.orders, e.id, o, Bid);
  }

  // ---- whole runs

  /** The order was placed because the strategy, told the current exposure, said so. */
  ghost predicate Signalled(cfg: Config, ticker: string, w: World, e: Event) {
    e.Placed? ==> exists st: State, u: Update :: u.exposure == Exposure(w.ledger, ticker) && Next(cfg, st, u).1 == Some(e.signal)
  }

  ghost predicate Step(cfg: Config, ticker: string, w: World, e: Event, w': World) {
    Possible(ticker, w, e) && Signalled(cfg, ticker, w, e) && w' == Happens(ticker, w, e)
  }

  /** A run from a flat start; reconnects leave no trace here, since no session change touches the ledger. */
  ghost predicate IsRun(cfg: Config, ticker: string, es: seq<Event>, ws: seq<World>) {
    |ws| == |es| + 1 && ws[0] == START && forall i :: 0 <= i < |es| ==> Step(cfg, ticker, ws[i], es[i], ws[i + 1])
  }

  lemma {:induction false} RunIsBalanced(cfg: Config, ticker: string, es: seq<Event>, ws: seq<World>, i: nat)
    requires IsRun(cfg, ticker, es, ws) && i <= |es|
    ensures Balanced(ws[i].orders, ws[i].ledger, ticker)
  {
    hide Balanced, Possible, Signalled;
    if i == 0 {
      StartIsBalanced(ticker);
    } else {
      RunIsBalanced(cfg, ticker, es, ws, i - 1);
      var w, e := ws[i - 1], es[i - 1];
      assert Step(cfg, ticker, w, e, ws[i]);
      if e.Placed? { PlacedKeepsBalance(ticker, w, e); } else { FillKeepsBalance(ticker, w, e); }
    }
  }

  /** At every point of every run, exposure and true position differ by exactly what lost responses hide. */
  lemma ExposureThroughoutRun(cfg: Config, ticker: string, es: seq<Event>, ws: seq<World>, i: nat)
    requires IsRun(cfg, ticker, es, ws) && i <= |es|
    ensures Exposure(ws[i].ledger, ticker) == TruePosition(ws[i].orders) <==> Sum(Hidden(ws[i].orders)) == 0
  {
    hide Exposure, TruePosition, Sum, Balanced;
    RunIsBalanced(cfg, ticker, es, ws, i);
    ExposureIsTrueUpToLostResponses(ws[i].orders, ws[i].ledger, ticker);
  }

  lemma StartIsBalanced(ticker: string)
    ensures Balanced(START.orders, START.ledger, ticker)
    ensures TruePosition(START.orders) == 0
  {
    assert Delivered(START.orders) == map[] && Outstanding(START.orders) == map[] && TrueAmounts(START.orders) == map[];
  }

  ghost predicate AllKnown(os: Orders) { forall id :: id in os ==> os[id].known }

  lemma KnownOrdersHideNothing(os: Orders)
    requires AllKnown(os)
    ensures Sum(Hidden(os)) == 0
  {
    assert Hidden(os) == map[];
  }

  lemma SignalRespectsCap(cfg: Config, ticker: string, w: World, e: Event)
    requires e.Placed? && Signalled(cfg, ticker, w, e)
    ensures e.signal.side == Bid ==> Exposure(w.ledger, ticker) + e.signal.count <= cfg.maxPosition
    ensures e.signal.side == Ask ==> Exposure(w.ledger, ticker) - e.signal.count >= -cfg.maxPosition
  {
    hide Exposure;
    var st: State, u: Update :| u.exposure == Exposure(w.ledger, ticker) && Next(cfg, st, u).1 == Some(e.signal);
  }

  /** Every order placed in the run got a response the bot could read. */
  ghost predicate AllResponsesRead(es: seq<Event>) {
    forall i :: 0 <= i < |es| && es[i].Placed? ==> Readable(es[i].response)
  }

  lemma {:induction false} RunKnowsItsOrders(cfg: Config, ticker: string, es: seq<Event>, ws: seq<World>, i: nat)
    requires IsRun(cfg, ticker, es, ws) && i <= |es| && AllResponsesRead(es)
    ensures AllKnown(ws[i].orders)
  {
    hide Readable, Reports, FillSize, IsFillOf, Signalled;
    if i > 0 {
      RunKnowsItsOrders(cfg, ticker, es, ws, i - 1);
      assert Step(cfg, ticker, ws[i - 1], es[i - 1], ws[i]);
    }
  }

  /** At every point of every run, whatever responses were lost, the position exceeds the cap by no more than
      the fills of the orders whose response was lost. */
  lemma {:induction false} PositionStaysNearCap(cfg: Config, ticker: string, es: seq<Event>, ws: seq<World>, i: nat)
    requires IsRun(cfg, ticker, es, ws) && i <= |es| && cfg.maxPosition >= 0
    ensures NearCap(ws[i].orders, cfg.maxPosition)
  {
    hide Balanced, Happens, Signalled, NearCap, Possible;
    if i == 0 {
      StartIsNearCap(ticker, cfg.maxPosition);
    } else {
      PositionStaysNearCap(cfg, ticker, es, ws, i - 1);
      RunIsBalanced(cfg, ticker, es, ws, i - 1);
      var w, e := ws[i - 1], es[i - 1];
      assert Step(cfg, ticker, w, e, ws[i]);
      if e.Placed? { PlacedKeepsCap(cfg, ticker, w, e); } else { FillKeepsCap(ticker, w, e, cfg.maxPosition); }
    }
  }

  lemma StartIsNearCap(ticker: string, cap: int)
    requires cap >= 0
    ensures NearCap(START.orders, cap)
  {
    StartIsBalanced(ticker);
    HiddenIsLost(START.orders);
  }

  /** If every response so far could be read, the exposure is the position and the position is within the cap. */
  lemma KnownIsWithinCap(os: Orders, l: Ledger, ticker: string, cap: int)
    requires Balanced(os, l, ticker) && NearCap(os, cap) && AllKnown(os)
    ensures Exposure(l, ticker) == TruePosition(os) && -cap <= TruePosition(os) <= cap
  {
    ExposureIsTrueUpToLostResponses(os, l, ticker);
    KnownOrdersHideNothing(os);
    assert Lost(os, Ask) == map[] && Lost(os, Bid) == map[];
  }

  /** If every response could be read, the exposure is the exchange's position at every point of every run,
      and neither ever exceeds the cap. */
  lemma PositionStaysWithinCap(cfg: Config, ticker: string, es: seq<Event>, ws: seq<World>, i: nat)
    requires IsRun(cfg, ticker, es, ws) && i <= |es| && AllResponsesRead(es) && cfg.maxPosition >= 0
    ensures Exposure(ws[i].ledger, ticker) == TruePosition(ws[i].orders)
    ensures -cfg.maxPosition <= TruePosition(ws[i].orders) <= cfg.maxPosition
  {
    hide Balanced, NearCap, AllKnown, AllResponsesRead, Step, Exposure, TruePosition;
    RunIsBalanced(cfg, ticker, es, ws, i);
    RunKnowsItsOrders(cfg, ticker, es, ws, i);
    PositionStaysNearCap(cfg, ticker, es, ws, i);
    KnownIsWithinCap(ws[i].orders, ws[i].ledger, ticker, cfg.maxPosition);
  }
}
