/** The whole bot over whole runs: decoding, book, strategy, orders and fills together, across sessions. */
module TradingBotSafety {
  import opened Text
  import opened KalshiMessages
  import opened MarketBook
  import opened Strategies
  import opened FeedSync
  import opened Positions
  import opened TradingBots
  import JsonTree

  /** The bot and the exchange's view of its orders. */
  datatype Situation = Situation(bot: Bot, orders: Orders)

  /** A new session, or a text frame. If the frame makes the bot place an order, `response` is the answer and
      the exchange executed it as order `id` for `filled` contracts. */
  datatype Input =
    | NewSession
    | Text(payload: string, now: int, decay: real, response: Option<JsonTree.JsonValue>, id: string, filled: nat)

  const BEGIN := Situation(Bot(Feed(EMPTY_BOOK, None, 0), EMPTY_LEDGER, INITIAL), map[])

  ghost predicate WellShapedBot(b: Bot) { WellShapedBook(b.feed.book) }

  /** What the frame with message `m` leads to. */
  ghost function Led(cfg: Config, ticker: string, s: Situation, i: Input, m: Message): TradingBots.Outcome
    requires i.Text? && WellShapedBot(s.bot)
  {
    OnDecoded(cfg, ticker, s.bot, m, i.now, i.decay, i.response)
  }

  ghost function PlacedOrder(signal: Signal, i: Input): Positions.Event
    requires i.Text?
  {
    Placed(signal, i.response, i.id, i.filled)
  }

  /** The environment's side: book messages are genuine, shared numbers do not jump, fills are parts of the
      bot's own fills not delivered before, and orders fill at most their size; the answer to an order may be
      lost or unreadable, but one that can be read is true. */
  ghost predicate Fair(ex: Exchange, cfg: Config, ticker: string, s: Situation, i: Input, m: Message)
    requires i.Text? && WellShapedBot(s.bot)
  {
    var w := World(s.orders, s.bot.ledger);
    var signal := Led(cfg, ticker, s, i, m).signal;
    && Genuine(ex, m) && NoJump(s.bot.feed, m)
    && (m.payload.Filled? ==> Possible(ticker, w, FillArrived(m.payload.fill)))
    && (signal.Some? ==> Possible(ticker, w, PlacedOrder(signal.value, i)))
  }

  ghost function OrdersAfter(cfg: Config, ticker: string, s: Situation, i: Input, m: Message): Orders
    requires i.Text? && WellShapedBot(s.bot)
    requires m.payload.Filled? ==> Possible(ticker, World(s.orders, s.bot.ledger), FillArrived(m.payload.fill))
    requires var signal := Led(cfg, ticker, s, i, m).signal;
      signal.Some? ==> Possible(ticker, World(s.orders, s.bot.ledger), PlacedOrder(signal.value, i))
  {
    var w := World(s.orders, s.bot.ledger);
    var signal := Led(cfg, ticker, s, i, m).signal;
    if m.payload.Filled? then Positions.Happens(ticker, w, FillArrived(m.payload.fill)).orders
    else if signal.Some? then Positions.Happens(ticker, w, PlacedOrder(signal.value, i)).orders
    else s.orders
  }

  ghost predicate BotStep(ex: Exchange, cfg: Config, ticker: string, s: Situation, i: Input, s': Situation) {
    WellShapedBot(s.bot) &&
    match i
    case NewSession => s' == s.(bot := s.bot.(feed := Feed(EMPTY_BOOK, None, s.bot.feed.seqNo)))
    case Text(payload, _, _, _, _, _) =>
      match ThroughTree(payload)
      case None => s' == s
      case Some(m) =>
        Fair(ex, cfg, ticker, s, i, m) && s' == Situation(Led(cfg, ticker, s, i, m).bot, OrdersAfter(cfg, ticker, s, i, m))
  }

  /** Book in sync, ledger balanced, position within the cap up to the fills of lost responses. */
  ghost predicate Safe(ex: Exchange, cfg: Config, ticker: string, s: Situation) {
    && WellShapedBot(s.bot) && InSync(ex, s.bot.feed)
    && Balanced(s.orders, s.bot.ledger, ticker) && NearCap(s.orders, cfg.maxPosition)
  }

  lemma BeginIsSafe(ex: Exchange, cfg: Config, ticker: string)
    requires cfg.maxPosition >= 0
    ensures Safe(ex, cfg, ticker, BEGIN)
  {
    StartIsBalanced(ticker);
    StartIsNearCap(ticker, cfg.maxPosition);
  }

  /** A fill keeps the accounts. */
  lemma FillIsSafe(cfg: Config, ticker: string, os: Orders, l: Ledger, fill: Fill)
    requires Balanced(os, l, ticker) && NearCap(os, cfg.maxPosition) && Possible(ticker, World(os, l), FillArrived(fill))
    ensures var w' := Positions.Happens(ticker, World(os, l), FillArrived(fill));
      && w'.ledger == Positions.Filled(l, fill)
      && Balanced(w'.orders, w'.ledger, ticker) && NearCap(w'.orders, cfg.maxPosition)
  {
    hide NearCap, Sum, ParseContracts, Positions.Filled;
    FillKeepsBalance(ticker, World(os, l), FillArrived(fill));
    FillKeepsCap(ticker, World(os, l), FillArrived(fill), cfg.maxPosition);
  }

  /** An order on a signal keeps the accounts and the cap. */
  lemma OrderIsSafe(cfg: Config, ticker: string, os: Orders, l: Ledger, e: Positions.Event)
    requires e.Placed? && Balanced(os, l, ticker) && NearCap(os, cfg.maxPosition) && Possible(ticker, World(os, l), e)
    requires Signalled(cfg, ticker, World(os, l), e)
    ensures var w' := Positions.Happens(ticker, World(os, l), e);
      && w'.ledger == Submitted(l, e.signal.side, e.response)
      && Balanced(w'.orders, w'.ledger, ticker) && NearCap(w'.orders, cfg.maxPosition)
  {
    hide NearCap, Sum, Readable, Reports, ReportedFill, Submitted, Signalled;
    PlacedKeepsBalance(ticker, World(os, l), e);
    PlacedKeepsCap(cfg, ticker, World(os, l), e);
  }

  lemma SignalIsSignalled(cfg: Config, ticker: string, s: Situation, i: Input, m: Message)
    requires i.Text? && WellShapedBot(s.bot) && Led(cfg, ticker, s, i, m).signal.Some? && !m.payload.Filled?
    ensures Signalled(cfg, ticker, World(s.orders, s.bot.ledger), PlacedOrder(Led(cfg, ticker, s, i, m).signal.value, i))
    ensures Led(cfg, ticker, s, i, m).bot.ledger
         == Submitted(s.bot.ledger, Led(cfg, ticker, s, i, m).signal.value.side, i.response)
  {
    hide Exposure, Next, OnMessage, Submitted, BidOf, AskOf;
    var feed := OnMessage(s.bot.feed, m).0;
    var u := Update(BidOf(feed.book), AskOf(feed.book), Exposure(s.bot.ledger, ticker), i.now, i.decay);
    assert u.exposure == Exposure(s.bot.ledger, ticker) && Next(cfg, s.bot.strategy, u).1 == Led(cfg, ticker, s, i, m).signal;
  }

  lemma FillsDoNotTrade(f: Feed, m: Message)
    requires WellShapedBook(f.book)
    ensures m.payload.Filled? || m.payload.NoPayload? ==> OnMessage(f, m).1 == Ignore
  {}

  /** What the frame does to feed and ledger, case by case. */
  lemma LedParts(cfg: Config, ticker: string, s: Situation, i: Input, m: Message)
    requires i.Text? && WellShapedBot(s.bot)
    ensures var o := Led(cfg, ticker, s, i, m);
      && (o.bot.feed, o.verdict) == OnMessage(s.bot.feed, m)
      && (m.payload.Filled? ==> o.signal.None? && o.bot.ledger == Positions.Filled(s.bot.ledger, m.payload.fill))
      && (!m.payload.Filled? && o.signal.None? ==> o.bot.ledger == s.bot.ledger)
  {
    hide Exposure, Next, OnMessage, Submitted, BidOf, AskOf, Positions.Filled;
    FillsDoNotTrade(s.bot.feed, m);
  }

  lemma StepIsSafe(ex: Exchange, cfg: Config, ticker: string, s: Situation, i: Input, s': Situation)
    requires SoundExchange(ex) && Safe(ex, cfg, ticker, s) && BotStep(ex, cfg, ticker, s, i, s')
    ensures Safe(ex, cfg, ticker, s')
  {
    hide SoundExchange, Balanced, NearCap, Led, Possible, Genuine, NoJump, InSync;
    if i.NewSession? {
      NoSidIsInSync(ex, s'.bot.feed);
    } else if ThroughTree(i.payload).Some? {
      var m := ThroughTree(i.payload).value;
      LedParts(cfg, ticker, s, i, m);
      MessageKeepsSync(ex, s.bot.feed, m);
      var o := Led(cfg, ticker, s, i, m);
      if m.payload.Filled? {
        FillIsSafe(cfg, ticker, s.orders, s.bot.ledger, m.payload.fill);
      } else if o.signal.Some? {
        SignalIsSignalled(cfg, ticker, s, i, m);
        OrderIsSafe(cfg, ticker, s.orders, s.bot.ledger, PlacedOrder(o.signal.value, i));
      }
    }
  }

  ghost predicate IsBotRun(ex: Exchange, cfg: Config, ticker: string, inputs: seq<Input>, ss: seq<Situation>) {
    && |ss| == |inputs| + 1 && ss[0] == BEGIN
    && forall k :: 0 <= k < |inputs| ==> BotStep(ex, cfg, ticker, ss[k], inputs[k], ss[k + 1])
  }

  /** Over every run, at every point, whatever responses were lost: the book is the exchange's book at its
      sequence number, the ledger is balanced, and the position is within the cap up to the lost fills. */
  lemma {:induction false} BotIsSafe(
    ex: Exchange, cfg: Config, ticker: string, inputs: seq<Input>, ss: seq<Situation>, k: nat)
    requires SoundExchange(ex) && cfg.maxPosition >= 0 && IsBotRun(ex, cfg, ticker, inputs, ss) && k <= |inputs|
    ensures Safe(ex, cfg, ticker, ss[k])
  {
    hide Safe, BotStep, SoundExchange;
    if k == 0 {
      BeginIsSafe(ex, cfg, ticker);
    } else {
      BotIsSafe(ex, cfg, ticker, inputs, ss, k - 1);
      StepIsSafe(ex, cfg, ticker, ss[k - 1], inputs[k - 1], ss[k]);
    }
  }

  /** While every response so far could be read, the exposure is the exchange's position, within the cap. */
  lemma BotIsWithinCap(ex: Exchange, cfg: Config, ticker: string, inputs: seq<Input>, ss: seq<Situation>, k: nat)
    requires SoundExchange(ex) && cfg.maxPosition >= 0 && IsBotRun(ex, cfg, ticker, inputs, ss) && k <= |inputs|
    requires AllKnown(ss[k].orders)
    ensures Exposure(ss[k].bot.ledger, ticker) == TruePosition(ss[k].orders)
    ensures -cfg.maxPosition <= TruePosition(ss[k].orders) <= cfg.maxPosition
  {
    hide SoundExchange, BotStep, Balanced, NearCap, InSync, AllKnown, Exposure, TruePosition;
    BotIsSafe(ex, cfg, ticker, inputs, ss, k);
    KnownIsWithinCap(ss[k].orders, ss[k].bot.ledger, ticker, cfg.maxPosition);
  }

  /** Every order of every run is decided on the exchange's book, at the number of the message just applied. */
  lemma EveryOrderSeesTheExchangeBook(
    ex: Exchange, cfg: Config, ticker: string, inputs: seq<Input>, ss: seq<Situation>, k: nat)
    requires SoundExchange(ex) && cfg.maxPosition >= 0 && IsBotRun(ex, cfg, ticker, inputs, ss) && k < |inputs|
    requires inputs[k].Text? && ThroughTree(inputs[k].payload).Some? && WellShapedBot(ss[k].bot)
    requires Led(cfg, ticker, ss[k], inputs[k], ThroughTree(inputs[k].payload).value).signal.Some?
    ensures var m := ThroughTree(inputs[k].payload).value;
      var f := ss[k + 1].bot.feed;
      && IsBookMessage(m) && f.sid == Some(m.sid) && f.seqNo == m.seqNo
      && m.sid in ex && Carries(ex[m.sid], m.seqNo, m.payload)
      && ExchangeBook(ex[m.sid].messages[..m.seqNo - ex[m.sid].base + 1]) == Some(f.book)
  {
    hide Exposure, Next, OnMessage, Submitted, BidOf, AskOf, Positions.Filled, Possible, ExchangeBook;
    var m := ThroughTree(inputs[k].payload).value;
    BotIsSafe(ex, cfg, ticker, inputs, ss, k);
    assert BotStep(ex, cfg, ticker, ss[k], inputs[k], ss[k + 1]);
    FillsDoNotTrade(ss[k].bot.feed, m);
    MessageKeepsSync(ex, ss[k].bot.feed, m);
  }
}
