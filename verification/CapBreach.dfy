/** When order responses can be lost, the position cap is a guarantee exactly for configurations that never
    trade: for any other there is a run, from texts on the wire to orders, that breaks it. */
module CapBreach {
  import opened Text
  import opened KalshiMessages
  import opened MessageTexts
  import opened MarketBook
  import opened Strategies
  import opened FeedSync
  import opened Positions
  import opened TradingBots
  import opened TradingBotSafety
  import OrderPath

  // ---- time

  /** Any law for how much of the average remains after a time, such as `exp(-dt / tau)`. */
  ghost predicate IsDecay(law: int -> real) { law(0) == 1.0 && forall dt :: dt >= 0 ==> 0.0 < law(dt) <= 1.0 }

  /** The clock does not run backwards, and the decay handed to the strategy follows the law. */
  ghost predicate KeepsTime(law: int -> real, s: Situation, i: Input) {
    i.Text? ==> i.now >= s.bot.strategy.last && i.decay == law(i.now - s.bot.strategy.last)
  }

  ghost predicate IsTimedRun(
    law: int -> real, ex: Exchange, cfg: Config, ticker: string, inputs: seq<Input>, ss: seq<Situation>) {
    && IsBotRun(ex, cfg, ticker, inputs, ss)
    && forall k :: 0 <= k < |inputs| ==> KeepsTime(law, ss[k], inputs[k])
  }

  /** No run with this configuration ever takes the position beyond the cap. */
  ghost predicate CapIsGuaranteed(law: int -> real, cfg: Config, ticker: string) {
    forall ex: Exchange, inputs: seq<Input>, ss: seq<Situation> ::
      SoundExchange(ex) && IsTimedRun(law, ex, cfg, ticker, inputs, ss) ==>
        -cfg.maxPosition <= TruePosition(ss[|inputs|].orders) <= cfg.maxPosition
  }

  /** The narrowest spread is allowed, some mid is far enough from some price, and one order fits in the cap. */
  predicate CanTrade(cfg: Config) { cfg.maxSpread >= 1 && cfg.entryEdge <= 996 && 0 < cfg.orderSize <= cfg.maxPosition }

  // ---- configurations that cannot trade

  ghost predicate MidRange(st: State) { st.ema.Some? ==> 1.5 <= st.ema.value <= 998.5 }

  predicate OnGrid(u: Update) {
    (u.bid.Some? ==> 1 <= u.bid.value < MAX_PRICE) && (u.ask.Some? ==> 1 <= u.ask.value < MAX_PRICE)
  }

  lemma BookIsOnGrid(b: Book)
    requires WellShapedBook(b)
    ensures BidOf(b).Some? ==> 1 <= BidOf(b).value < MAX_PRICE
    ensures AskOf(b).Some? ==> 1 <= AskOf(b).value < MAX_PRICE
  {}

  lemma AverageStaysOnGrid(cfg: Config, st: State, u: Update)
    requires MidRange(st) && OnGrid(u) && 0.0 < u.decay <= 1.0
    ensures MidRange(Next(cfg, st, u).0)
  {
    hide Blend;
    if Tradable(u) && st.ema.Some? { BlendStaysBetween(st.ema.value, Mid(u), u.decay, 1.5, 998.5); }
  }

  /** A signal at exposure 0 needs a configuration that can trade, or asks for nothing. */
  lemma SignalNeedsTrading(cfg: Config, st: State, u: Update)
    requires MidRange(st) && OnGrid(u) && 0.0 < u.decay <= 1.0 && u.exposure == 0
    ensures Next(cfg, st, u).1.Some? ==> CanTrade(cfg) || Next(cfg, st, u).1.value.count <= 0
  {
    AverageStaysOnGrid(cfg, st, u);
    hide Blend;
  }

  ghost predicate NothingFilled(os: Orders) { forall id :: id in os ==> os[id].filled == 0 }

  lemma {:induction false} SumOfZeros(m: map<string, int>)
    requires forall k :: k in m ==> m[k] == 0
    ensures Sum(m) == 0
    decreases |m|
  {
    if m != map[] {
      var k :| k in m;
      SumSplit(m, k);
      SumOfZeros(m - {k});
    }
  }

  lemma NothingFilledIsFlat(os: Orders, l: Ledger, ticker: string)
    requires Balanced(os, l, ticker) && NothingFilled(os)
    ensures TruePosition(os) == 0 && Exposure(l, ticker) == 0
  {
    assert Hidden(os) == map[];
    SumOfZeros(TrueAmounts(os));
    ExposureIsTrueUpToLostResponses(os, l, ticker);
  }

  ghost predicate Idle(s: Situation) { NothingFilled(s.orders) && MidRange(s.bot.strategy) }

  lemma OnlyTextsTrade(cfg: Config, ticker: string, s: Situation, i: Input, m: Message)
    requires i.Text? && WellShapedBot(s.bot)
    ensures var o := Led(cfg, ticker, s, i, m);
      var feed := OnMessage(s.bot.feed, m).0;
      var u := Update(BidOf(feed.book), AskOf(feed.book), Exposure(s.bot.ledger, ticker), i.now, i.decay);
      if OnMessage(s.bot.feed, m).1 == Trade && !m.payload.Filled?
      then (o.bot.strategy, o.signal) == Next(cfg, s.bot.strategy, u)
      else o.signal == None && o.bot.strategy == s.bot.strategy
  {
    FillsDoNotTrade(s.bot.feed, m);
    hide Exposure, Next, OnMessage, Submitted, BidOf, AskOf, Positions.Filled;
  }

  lemma IdleStep(law: int -> real, ex: Exchange, cfg: Config, ticker: string, s: Situation, i: Input, s': Situation)
    requires IsDecay(law) && !CanTrade(cfg) && Safe(ex, cfg, ticker, s) && Idle(s)
    requires BotStep(ex, cfg, ticker, s, i, s') && KeepsTime(law, s, i)
    ensures Idle(s')
  {
    NothingFilledIsFlat(s.orders, s.bot.ledger, ticker);
    if i.Text? && ThroughTree(i.payload).Some? {
      var m := ThroughTree(i.payload).value;
      OnlyTextsTrade(cfg, ticker, s, i, m);
      var feed := OnMessage(s.bot.feed, m).0;
      BookIsOnGrid(feed.book);
      var u := Update(BidOf(feed.book), AskOf(feed.book), Exposure(s.bot.ledger, ticker), i.now, i.decay);
      AverageStaysOnGrid(cfg, s.bot.strategy, u);
      SignalNeedsTrading(cfg, s.bot.strategy, u);
      hide Led, Next, OnMessage, BidOf, AskOf, Exposure, ThroughTree, InSync, Balanced, NearCap, Genuine, NoJump;
      hide CanTrade, MidRange, Submitted, Positions.Filled, FillSize, IsFillOf, Readable, Reports;
    }
  }

  lemma {:induction false} IdleRun(
    law: int -> real, ex: Exchange, cfg: Config, ticker: string, inputs: seq<Input>, ss: seq<Situation>, k: nat)
    requires IsDecay(law) && !CanTrade(cfg) && SoundExchange(ex) && cfg.maxPosition >= 0
    requires IsTimedRun(law, ex, cfg, ticker, inputs, ss) && k <= |inputs|
    ensures Idle(ss[k])
  {
    hide IsDecay, CanTrade, SoundExchange, BotStep, Safe, KeepsTime;
    if k > 0 {
      IdleRun(law, ex, cfg, ticker, inputs, ss, k - 1);
      BotIsSafe(ex, cfg, ticker, inputs, ss, k - 1);
      IdleStep(law, ex, cfg, ticker, ss[k - 1], inputs[k - 1], ss[k]);
    }
  }

  lemma IdleKeepsCap(law: int -> real, cfg: Config, ticker: string)
    requires IsDecay(law) && !CanTrade(cfg) && cfg.maxPosition >= 0
    ensures CapIsGuaranteed(law, cfg, ticker)
  {
    hide IsDecay, CanTrade, SoundExchange, BotStep, KeepsTime, InSync, Balanced, NearCap, TruePosition, Exposure, NothingFilled;
    forall ex: Exchange, inputs: seq<Input>, ss: seq<Situation>
      | SoundExchange(ex) && IsTimedRun(law, ex, cfg, ticker, inputs, ss)
      ensures -cfg.maxPosition <= TruePosition(ss[|inputs|].orders) <= cfg.maxPosition
    {
      IdleRun(law, ex, cfg, ticker, inputs, ss, |inputs|);
      BotIsSafe(ex, cfg, ticker, inputs, ss, |inputs|);
      var s := ss[|inputs|];
      NothingFilledIsFlat(s.orders, s.bot.ledger, ticker);
    }
  }

  // ---- two quotes on the wire, one tick wide

  function OneLevel(p: int): seq<PriceLevel>
    requires 1 <= p <= 998
  {
    [PriceLevel(OrderPath.PriceToDollars(p), "1")]
  }

  function OneSide(p: int): (levels: Levels)
    requires 1 <= p <= 998
    ensures WellShaped(levels) && forall q :: 0 <= q <= MAX_PRICE ==> levels[q] == if q == p then 100 else 0
  {
    NoLevels()[p := 100]
  }

  /** A YES bid at `p` and a NO bid that makes `p + 1` the ask. */
  function Quoted(p: int): OrderBookSnapshot
    requires 1 <= p <= 998
  {
    OrderBookSnapshot("", "", OneLevel(p), OneLevel(999 - p))
  }

  function QuotedBook(p: int): (b: Book)
    requires 1 <= p <= 998
    ensures WellShapedBook(b)
  {
    Book("", OneSide(p), OneSide(999 - p))
  }

  lemma OneLevelSide(p: int)
    requires 1 <= p <= 998
    ensures SideOf(OneLevel(p)) == Some(OneSide(p))
  {
    OrderPath.PriceReadsBack(p);
    QuantityParses();
    hide OrderPath.PriceToDollars, ParseQuantity, NoLevels;
    assert OneLevel(p)[..0] == [];
    assert SideOf([]) == Some(NoLevels());
  }

  lemma QuoteApplies(p: int)
    requires 1 <= p <= 998
    ensures Snapshotted(Quoted(p)) == Applied(QuotedBook(p))
  {
    hide SideOf, OneLevel, OneSide;
    OneLevelSide(p);
    OneLevelSide(999 - p);
  }

  lemma QuoteIsOneTick(p: int)
    requires 1 <= p <= 998
    ensures BidOf(QuotedBook(p)) == Some(p) && AskOf(QuotedBook(p)) == Some(p + 1)
  {
    hide Best, OneSide;
    BestIsTheMaximum(OneSide(p), MAX_PRICE - 1, p);
    BestIsTheMaximum(OneSide(999 - p), MAX_PRICE - 1, 999 - p);
  }

  const HIGH := 998
  const LOW := 1

  /** Every subscription starts with a high quote, followed by a low one. */
  function TwoQuotes(): Exchange { map[7 := Subscription(1, [Snapshot(Quoted(HIGH)), Snapshot(Quoted(LOW))])] }

  lemma TwoQuotesAreSound()
    ensures SoundExchange(TwoQuotes())
  {
    hide Quoted, QuotedBook, Snapshotted, ExchangeBook;
    var ps := [Snapshot(Quoted(HIGH)), Snapshot(Quoted(LOW))];
    forall k | 0 < k <= 2 ensures ExchangeBook(ps[..k]).Some? { EndsInQuote(ps[..k], if k == 1 then HIGH else LOW); }
  }

  lemma EndsInQuote(ps: seq<Payload>, p: int)
    requires 1 <= p <= 998 && ps != [] && ps[|ps| - 1] == Snapshot(Quoted(p))
    ensures ExchangeBook(ps).Some?
  {
    QuoteApplies(p);
    hide Quoted, QuotedBook, Snapshotted;
  }

  function QuoteMessage(p: int): Message
    requires p == HIGH || p == LOW
  {
    Message("orderbook_snapshot", 7, if p == HIGH then 1 else 2, Snapshot(Quoted(p)))
  }

  /** Either quote may be delivered at any time: the book becomes the quote, and the strategy is asked. */
  lemma QuoteIsDelivered(f: Feed, p: int)
    requires WellShapedBook(f.book) && (p == HIGH || p == LOW)
    ensures ThroughTree(MessageText(QuoteMessage(p))) == Some(QuoteMessage(p))
    ensures Genuine(TwoQuotes(), QuoteMessage(p)) && NoJump(f, QuoteMessage(p))
    ensures var r := OnMessage(f, QuoteMessage(p)); r.1 == Trade && r.0.book == QuotedBook(p)
  {
    hide ThroughTree, MessageText, Quoted, QuotedBook, Snapshotted;
    TextDecodes(QuoteMessage(p));
    QuoteApplies(p);
  }

  // ---- the strategy on these quotes

  predicate AtHigh(st: State) { st.ema == Some(998.5) }

  lemma BlendWithItself(e: real, decay: real)
    ensures Blend(e, e, decay) == e
  {
    assert (1.0 - decay) * 0.0 == 0.0;
  }

  lemma BlendAtOnce(e: real, mid: real)
    ensures Blend(e, mid, 1.0) == e
  {}

  /** Ready for another order at this time. */
  predicate Ready(cfg: Config, st: State, now: int) {
    now - st.first >= cfg.warmup && (st.lastOrder.Some? ==> now - st.lastOrder.value >= cfg.cooldown)
  }

  function Seen(p: int, now: int, decay: real): Update { Update(Some(p), Some(p + 1), 0, now, decay) }

  /** The average stays high; any signal is a bid, and a low quote brings one as soon as the strategy is ready. */
  lemma QuoteIsSeen(cfg: Config, st: State, p: int, now: int, decay: real)
    requires CanTrade(cfg) && (AtHigh(st) || (st.ema.None? && p == HIGH))
    requires p == HIGH || (p == LOW && decay == 1.0)
    ensures var (st', signal) := Next(cfg, st, Seen(p, now, decay));
      && AtHigh(st') && st'.last == now && st'.first == (if st.ema.Some? then st.first else now)
      && signal in {None, Some(Signal(Bid, p + 1, cfg.orderSize))}
      && st'.lastOrder == (if signal.Some? then Some(now) else st.lastOrder)
      && (p == LOW && Ready(cfg, st, now) ==> signal.Some?)
  {
    BlendWithItself(998.5, decay);
    BlendAtOnce(998.5, 1.5);
    hide Blend;
    var u := Seen(p, now, decay);
    assert Mid(u) == if p == HIGH then 998.5 else 1.5;
    assert Averaged(st, u).ema == Some(998.5);
  }

  // ---- one quote delivered to the bot, with the response lost

  function Id(n: nat): string { seq(n, _ => 'x') }

  ghost predicate ShortIds(os: Orders, n: nat) { forall id :: id in os ==> |id| < n }

  /** Nothing known to the bot, ids still free from length `n` on. */
  ghost predicate Blind(ticker: string, s: Situation, n: nat) {
    WellShapedBot(s.bot) && s.bot.ledger == EMPTY_LEDGER && Balanced(s.orders, EMPTY_LEDGER, ticker) && ShortIds(s.orders, n)
  }

  ghost function QuoteInput(cfg: Config, p: int, now: int, decay: real, n: nat): Input
    requires (p == HIGH || p == LOW) && cfg.orderSize >= 0
  {
    Text(MessageText(QuoteMessage(p)), now, decay, None, Id(n), cfg.orderSize)
  }

  lemma NoExposure(ticker: string)
    ensures Exposure(EMPTY_LEDGER, ticker) == 0
  {}

  /** What the bot makes of a quote. */
  lemma QuoteLeads(cfg: Config, ticker: string, s: Situation, p: int, now: int, decay: real, n: nat)
    requires WellShapedBot(s.bot) && s.bot.ledger == EMPTY_LEDGER && (p == HIGH || p == LOW) && cfg.orderSize >= 0
    ensures var o := Led(cfg, ticker, s, QuoteInput(cfg, p, now, decay, n), QuoteMessage(p));
      && (o.bot.strategy, o.signal) == Next(cfg, s.bot.strategy, Seen(p, now, decay))
      && o.bot.ledger == EMPTY_LEDGER && WellShapedBot(o.bot)
  {
    var i := QuoteInput(cfg, p, now, decay, n);
    QuoteIsDelivered(s.bot.feed, p);
    QuoteIsOneTick(p);
    NoExposure(ticker);
    OnlyTextsTrade(cfg, ticker, s, i, QuoteMessage(p));
    hide MessageText, Quoted, QuotedBook, BidOf, AskOf, Exposure, Next, OnMessage;
  }

  /** A bid signal at this point can be filled in full with its response lost. */
  lemma OrderIsPossible(cfg: Config, ticker: string, s: Situation, i: Input, n: nat, signal: Signal)
    requires Blind(ticker, s, n) && i.Text? && i.response.None? && i.id == Id(n) && i.filled == cfg.orderSize == signal.count
    requires signal.side == Bid
    ensures var w, e := World(s.orders, s.bot.ledger), PlacedOrder(signal, i);
      && Possible(ticker, w, e)
      && var w' := Positions.Happens(ticker, w, e);
         && Balanced(w'.orders, EMPTY_LEDGER, ticker) && ShortIds(w'.orders, n + 1)
         && TruePosition(w'.orders) == TruePosition(s.orders) + cfg.orderSize
  {
    hide Balanced, TruePosition;
    PlacedKeepsBalance(ticker, World(s.orders, s.bot.ledger), PlacedOrder(signal, i));
  }

  /** The order of a quote, if it brings one, is filled in full and its response is lost. */
  lemma QuoteStep(cfg: Config, ticker: string, s: Situation, i: Input, p: int, n: nat) returns (s': Situation)
    requires CanTrade(cfg) && Blind(ticker, s, n) && (p == HIGH || p == LOW)
    requires i.Text? && i == QuoteInput(cfg, p, i.now, i.decay, n)
    requires Next(cfg, s.bot.strategy, Seen(p, i.now, i.decay)).1 in {None, Some(Signal(Bid, p + 1, cfg.orderSize))}
    ensures BotStep(TwoQuotes(), cfg, ticker, s, i, s')
    ensures Blind(ticker, s', n + 1) && s'.bot.strategy == Next(cfg, s.bot.strategy, Seen(p, i.now, i.decay)).0
    ensures TruePosition(s'.orders)
         == TruePosition(s.orders) + if Next(cfg, s.bot.strategy, Seen(p, i.now, i.decay)).1.Some? then cfg.orderSize else 0
  {
    hide Led, Next, ThroughTree, MessageText, Genuine, NoJump, OnMessage, Balanced, TruePosition, QuoteMessage, TwoQuotes;
    hide Possible, Positions.Happens, Id, ShortIds, CanTrade, PlacedOrder;
    var m := QuoteMessage(p);
    QuoteLeads(cfg, ticker, s, p, i.now, i.decay, n);
    QuoteIsDelivered(s.bot.feed, p);
    QuoteIsNoFill(p);
    var signal := Led(cfg, ticker, s, i, m).signal;
    if signal.Some? { OrderIsPossible(cfg, ticker, s, i, n, signal.value); } else { IdsStayShort(s.orders, n); }
    s' := Situation(Led(cfg, ticker, s, i, m).bot, OrdersAfter(cfg, ticker, s, i, m));
  }

  lemma QuoteIsNoFill(p: int)
    requires p == HIGH || p == LOW
    ensures !QuoteMessage(p).payload.Filled?
  {}

  lemma IdsStayShort(os: Orders, n: nat)
    requires ShortIds(os, n)
    ensures ShortIds(os, n + 1)
  {}

  /** One quote, delivered in time to a bot whose average is high: perhaps another order, never a sale. */
  lemma QuoteClimbs(law: int -> real, cfg: Config, ticker: string, s: Situation, p: int, now: int, n: nat)
    returns (i: Input, s': Situation, placed: bool)
    requires CanTrade(cfg) && Blind(ticker, s, n) && now >= s.bot.strategy.last
    requires AtHigh(s.bot.strategy) || (s.bot.strategy.ema.None? && p == HIGH)
    requires p == HIGH || (p == LOW && law(now - s.bot.strategy.last) == 1.0)
    ensures BotStep(TwoQuotes(), cfg, ticker, s, i, s') && KeepsTime(law, s, i) && Blind(ticker, s', n + 1)
    ensures AtHigh(s'.bot.strategy) && s'.bot.strategy.last == now
    ensures s'.bot.strategy.first == if s.bot.strategy.ema.Some? then s.bot.strategy.first else now
    ensures s'.bot.strategy.lastOrder == if placed then Some(now) else s.bot.strategy.lastOrder
    ensures TruePosition(s'.orders) == TruePosition(s.orders) + if placed then cfg.orderSize else 0
    ensures p == LOW && Ready(cfg, s.bot.strategy, now) ==> placed
  {
    hide Blind, BotStep, Next, TruePosition, MessageText, Quoted;
    var decay := law(now - s.bot.strategy.last);
    i := QuoteInput(cfg, p, now, decay, n);
    QuoteIsSeen(cfg, s.bot.strategy, p, now, decay);
    s' := QuoteStep(cfg, ticker, s, i, p, n);
    placed := Next(cfg, s.bot.strategy, Seen(p, now, decay)).1.Some?;
  }

  // ---- the run

  function AtLeast(a: int, b: int): int { if a < b then b else a }

  /** When the `j`-th pair of quotes arrives. */
  function Time(cfg: Config, j: nat): int { AtLeast(cfg.warmup, 0) + j * AtLeast(cfg.cooldown, 1) }

  lemma TimeAdvances(cfg: Config, j: nat)
    ensures 0 <= Time(cfg, j) && cfg.warmup <= Time(cfg, j)
    ensures Time(cfg, j + 1) >= Time(cfg, j) + cfg.cooldown && Time(cfg, j + 1) >= Time(cfg, j)
  {
    var c := AtLeast(cfg.cooldown, 1);
    assert (j + 1) * c == j * c + c;
  }

  /** After `j` pairs: the average is high, the clock not past pair `j`, and the position at least `j` orders. */
  ghost predicate Climbed(cfg: Config, ticker: string, s: Situation, n: nat, j: nat) {
    && Blind(ticker, s, n) && AtHigh(s.bot.strategy) && s.bot.strategy.first == 0
    && 0 <= s.bot.strategy.last <= Time(cfg, j)
    && (s.bot.strategy.lastOrder.Some? ==> s.bot.strategy.lastOrder.value <= Time(cfg, j))
    && TruePosition(s.orders) >= j * cfg.orderSize
  }

  lemma Extended(law: int -> real, ex: Exchange, cfg: Config, ticker: string, inputs: seq<Input>, ss: seq<Situation>,
                 i: Input, s': Situation)
    requires IsTimedRun(law, ex, cfg, ticker, inputs, ss)
    requires BotStep(ex, cfg, ticker, ss[|inputs|], i, s') && KeepsTime(law, ss[|inputs|], i)
    ensures IsTimedRun(law, ex, cfg, ticker, inputs + [i], ss + [s'])
  {
    hide BotStep, KeepsTime;
    var inputs', ss' := inputs + [i], ss + [s'];
    forall k | 0 <= k < |inputs'| ensures BotStep(ex, cfg, ticker, ss'[k], inputs'[k], ss'[k + 1]) && KeepsTime(law, ss'[k], inputs'[k]) {
      assert k < |inputs| ==> BotStep(ex, cfg, ticker, ss[k], inputs[k], ss[k + 1]) && KeepsTime(law, ss[k], inputs[k]);
    }
  }

  lemma BeginIsBlind(ticker: string)
    ensures Blind(ticker, BEGIN, 1) && TruePosition(BEGIN.orders) == 0
  {
    StartIsBalanced(ticker);
  }

  /** A new session forgets the book and nothing else. */
  lemma Reconnect(ex: Exchange, cfg: Config, ticker: string, s: Situation, n: nat, j: nat) returns (s': Situation)
    requires Climbed(cfg, ticker, s, n, j)
    ensures BotStep(ex, cfg, ticker, s, NewSession, s') && Climbed(cfg, ticker, s', n + 1, j)
  {
    hide Balanced, TruePosition, Time;
    IdsStayShort(s.orders, n);
    s' := s.(bot := s.bot.(feed := Feed(EMPTY_BOOK, None, s.bot.feed.seqNo)));
  }

  lemma BeginConnects(ex: Exchange, cfg: Config, ticker: string)
    ensures BotStep(ex, cfg, ticker, BEGIN, NewSession, BEGIN)
  {}

  lemma FirstQuote(law: int -> real, cfg: Config, ticker: string) returns (i: Input, s: Situation)
    requires IsDecay(law) && CanTrade(cfg)
    ensures BotStep(TwoQuotes(), cfg, ticker, BEGIN, i, s) && KeepsTime(law, BEGIN, i) && Climbed(cfg, ticker, s, 2, 0)
  {
    hide Blind, BotStep, KeepsTime, TruePosition, Time;
    BeginIsBlind(ticker);
    TimeAdvances(cfg, 0);
    var placed;
    i, s, placed := QuoteClimbs(law, cfg, ticker, BEGIN, HIGH, 0, 1);
  }

  /** A session's pair of quotes, at one moment: high, then low. */
  lemma NextPair(law: int -> real, cfg: Config, ticker: string, s: Situation, n: nat, j: nat)
    returns (i: Input, s': Situation, i': Input, s'': Situation)
    requires IsDecay(law) && CanTrade(cfg) && Climbed(cfg, ticker, s, n, j)
    ensures BotStep(TwoQuotes(), cfg, ticker, s, i, s') && KeepsTime(law, s, i)
    ensures BotStep(TwoQuotes(), cfg, ticker, s', i', s'') && KeepsTime(law, s', i')
    ensures Climbed(cfg, ticker, s'', n + 2, j + 1)
  {
    hide Blind, BotStep, KeepsTime, TruePosition, Time, TwoQuotes;
    TimeAdvances(cfg, j);
    TimeAdvances(cfg, j + 1);
    OneMore(j + 1, cfg.orderSize);
    var now := Time(cfg, j + 1);
    var first, second;
    i, s', first := QuoteClimbs(law, cfg, ticker, s, HIGH, now, n);
    i', s'', second := QuoteClimbs(law, cfg, ticker, s', LOW, now, n + 1);
  }

  lemma {:induction false} Climb(law: int -> real, cfg: Config, ticker: string, j: nat)
    returns (inputs: seq<Input>, ss: seq<Situation>)
    requires IsDecay(law) && CanTrade(cfg)
    ensures IsTimedRun(law, TwoQuotes(), cfg, ticker, inputs, ss) && Climbed(cfg, ticker, ss[|inputs|], |inputs|, j)
  {
    hide BotStep, KeepsTime, Climbed, CanTrade, IsDecay, TwoQuotes;
    if j == 0 {
      var i, s := FirstQuote(law, cfg, ticker);
      BeginConnects(TwoQuotes(), cfg, ticker);
      NewSessionKeepsTime(law, BEGIN);
      inputs, ss := [NewSession, i], [BEGIN, BEGIN, s];
    } else {
      inputs, ss := Climb(law, cfg, ticker, j - 1);
      var s := Reconnect(TwoQuotes(), cfg, ticker, ss[|inputs|], |inputs|, j - 1);
      NewSessionKeepsTime(law, ss[|inputs|]);
      Extended(law, TwoQuotes(), cfg, ticker, inputs, ss, NewSession, s);
      inputs, ss := inputs + [NewSession], ss + [s];
      var i, s', i', s'' := NextPair(law, cfg, ticker, ss[|inputs|], |inputs|, j - 1);
      Extended(law, TwoQuotes(), cfg, ticker, inputs, ss, i, s');
      inputs, ss := inputs + [i], ss + [s'];
      Extended(law, TwoQuotes(), cfg, ticker, inputs, ss, i', s'');
      inputs, ss := inputs + [i'], ss + [s''];
    }
  }

  lemma NewSessionKeepsTime(law: int -> real, s: Situation)
    ensures KeepsTime(law, s, NewSession)
  {}

  /** Every configuration that can trade has a run, with every response lost, that exceeds the cap. Each session
      of it delivers the first two messages of its subscription once and in order. */
  lemma CapIsBroken(law: int -> real, cfg: Config, ticker: string)
    returns (ex: Exchange, inputs: seq<Input>, ss: seq<Situation>)
    requires IsDecay(law) && CanTrade(cfg)
    ensures SoundExchange(ex) && IsTimedRun(law, ex, cfg, ticker, inputs, ss)
    ensures TruePosition(ss[|inputs|].orders) > cfg.maxPosition
  {
    hide SoundExchange, IsTimedRun, TruePosition, Blind, Time;
    TwoQuotesAreSound();
    ex := TwoQuotes();
    inputs, ss := Climb(law, cfg, ticker, cfg.maxPosition + 1);
    MulOrder(1, cfg.orderSize, cfg.maxPosition + 1);
  }

  /** With responses that may be lost, the cap is guaranteed exactly for configurations that cannot trade. */
  lemma CapIsGuaranteedExactlyWithoutTrading(law: int -> real, cfg: Config, ticker: string)
    requires IsDecay(law) && cfg.maxPosition >= 0
    ensures CapIsGuaranteed(law, cfg, ticker) <==> !CanTrade(cfg)
  {
    hide SoundExchange, IsTimedRun, TruePosition, IsDecay, CanTrade;
    if CanTrade(cfg) {
      var ex, inputs, ss := CapIsBroken(law, cfg, ticker);
    } else {
      IdleKeepsCap(law, cfg, ticker);
    }
  }
}
