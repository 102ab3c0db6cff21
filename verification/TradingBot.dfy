/** The bot object: it decodes text frames, keeps the book in step, consults the strategy and books fills. */
module TradingBots {
  import opened Text
  import opened KalshiMessages
  import opened MarketBook
  import opened MessageTexts
  import opened Strategies
  import opened FeedSync
  import opened Positions
  import JsonTree
  import KalshiDecoderObject

  datatype PositionUpdate = PositionUpdate(ticker: string, quantity: int)

  /** The quantities of one ticker, added up. */
  ghost function Net(us: seq<PositionUpdate>, ticker: string): int {
    if us == [] then 0
    else Net(us[..|us| - 1], ticker) + if us[|us| - 1].ticker == ticker then us[|us| - 1].quantity else 0
  }

  class PositionTracker {
    var positions: map<string, int>
    ghost var history: seq<PositionUpdate>

    /** Every position is the net of all updates ever made to it. */
    ghost predicate Valid()
      reads this
    {
      forall ticker :: ValueAt(positions, ticker) == Net(history, ticker)
    }

    constructor ()
      ensures Valid() && positions == map[] && history == []
    {
      positions, history := map[], [];
    }

    method UpdatePositions(ticker: string, quantity: int)
      requires Valid()
      modifies this
      ensures Valid() && history == old(history) + [PositionUpdate(ticker, quantity)]
      ensures positions == old(positions)[ticker := ValueAt(old(positions), ticker) + quantity]
    {
      var position := GetPosition(ticker) + quantity;
      positions, history := positions[ticker := position], history + [PositionUpdate(ticker, quantity)];
      assert history[..|history| - 1] == old(history);
    }

    /** The net of all updates to the ticker, so 0 for one never traded. */
    function GetPosition(ticker: string): (n: int)
      requires Valid()
      reads this
      ensures n == Net(history, ticker)
    {
      assert ValueAt(positions, ticker) == Net(history, ticker);
      if ticker in positions then positions[ticker] else 0
    }
  }

  /** The state that survives from frame to frame. */
  datatype Bot = Bot(feed: Feed, ledger: Ledger, strategy: State)

  /** What one text frame leads to: the new state, what happens to the session, and the order sent, if any. */
  datatype Outcome = Outcome(bot: Bot, verdict: Verdict, signal: Option<Signal>)

  /** The strategy's turn after the book changed; an order is answered before anything else happens. */
  ghost function AfterTrade(cfg: Config, ticker: string, b: Bot, now: int, decay: real,
                            response: Option<JsonTree.JsonValue>): Outcome
    requires WellShapedBook(b.feed.book)
  {
    var u := Update(BidOf(b.feed.book), AskOf(b.feed.book), Exposure(b.ledger, ticker), now, decay);
    var (st, signal) := Next(cfg, b.strategy, u);
    var ledger := if signal.Some? then Submitted(b.ledger, signal.value.side, response) else b.ledger;
    Outcome(Bot(b.feed, ledger, st), Trade, signal)
  }

  ghost function OnDecoded(cfg: Config, ticker: string, b: Bot, m: Message, now: int, decay: real,
                           response: Option<JsonTree.JsonValue>): Outcome
    requires WellShapedBook(b.feed.book)
  {
    var (feed, verdict) := FeedSync.OnMessage(b.feed, m);
    var ledger := if m.payload.Filled? then Positions.Filled(b.ledger, m.payload.fill) else b.ledger;
    var b' := Bot(feed, ledger, b.strategy);
    if verdict == Trade then AfterTrade(cfg, ticker, b', now, decay, response) else Outcome(b', verdict, None)
  }

  class TradingBot {
    const ticker: string
    const strategy: MeanReversionStrategy
    const tracker: PositionTracker
    var unconfirmed: map<string, int>
    var book: MarketState
    var bookSid: Option<nat>
    var bookSeq: nat

    ghost function Ledger(): Ledger
      reads this, tracker
    {
      Positions.Ledger(tracker.positions, unconfirmed)
    }

    ghost function CurrentFeed(): Feed
      reads this, book, book.yes, book.no
    {
      Feed(book.Contents(), bookSid, bookSeq)
    }

    ghost function Current(): Bot
      reads this, tracker, strategy, book, book.yes, book.no
    {
      Bot(CurrentFeed(), Ledger(), strategy.Current())
    }

    constructor (ticker: string, config: Config)
      ensures fresh(strategy) && fresh(tracker) && fresh(book) && fresh(book.yes) && fresh(book.no)
      ensures book.Valid() && tracker.Valid() && this.ticker == ticker && strategy.config == config
      ensures Current() == Bot(Feed(EMPTY_BOOK, None, 0), EMPTY_LEDGER, INITIAL)
    {
      this.ticker := ticker;
      strategy := new MeanReversionStrategy(config);
      tracker := new PositionTracker();
      unconfirmed := map[];
      book := new MarketState();
      bookSid, bookSeq := None, 0;
    }

    /** A session starts with an empty book and no subscription; positions carry over. */
    method StartSession()
      modifies this`book, this`bookSid
      ensures fresh(book) && fresh(book.yes) && fresh(book.no) && book.Valid()
      ensures CurrentFeed() == Feed(EMPTY_BOOK, None, old(bookSeq))
      ensures Ledger() == old(Ledger())
    {
      book := new MarketState();
      bookSid := None;
    }

    /** The fold over the unconfirmed fills, in whatever order the hash map yields them. */
    method Exposure() returns (e: int)
      requires tracker.Valid()
      ensures e == Positions.Exposure(Ledger(), ticker)
    {
      e := tracker.GetPosition(ticker);
      assert e == ValueAt(tracker.positions, ticker);
      var left := unconfirmed;
      while left != map[]
        invariant e + Sum(left) == Positions.Exposure(Ledger(), ticker)
        decreases |left|
      {
        var id :| id in left;
        SumRemove(left, id);
        e, left := e + left[id], left - {id};
      }
    }

    method Submit(signal: Signal, response: Option<JsonTree.JsonValue>)
      modifies this`unconfirmed
      ensures Ledger() == Submitted(old(Ledger()), signal.side, response)
    {
      if response.None? { return; }
      var parsed := ParseOrderResponse(response.value);
      if parsed.None? { return; }
      var filled := ParseContracts(parsed.value.fillCount);
      if filled.None? { return; }
      var id := parsed.value.orderId;
      if filled.value > 0 {
        unconfirmed := unconfirmed[id := ValueAt(unconfirmed, id) + Signed(signal.side, filled.value)];
      }
    }

    method OnFill(fill: Fill)
      requires tracker.Valid()
      modifies this`unconfirmed, tracker
      ensures tracker.Valid()
      ensures Ledger() == Positions.Filled(old(Ledger()), fill)
    {
      hide ParseContracts;
      var n := ParseContracts(fill.countFp);
      if n.None? { return; }
      var signed := if fill.action == Buy then n.value else -n.value;
      tracker.UpdatePositions(fill.marketTicker, signed);
      if fill.orderId in unconfirmed {
        var before := unconfirmed[fill.orderId];
        unconfirmed := unconfirmed[fill.orderId := before - signed];
        var after := unconfirmed[fill.orderId];
        if after == 0 || (before > 0) != (after > 0) {
          UpdateThenRemove(old(unconfirmed), fill.orderId, after);
          unconfirmed := unconfirmed - {fill.orderId};
        }
      }
    }

    /** The sequence check; `false` means a gap, after which the session is dropped. */
    method Track(m: Message) returns (ok: bool)
      modifies this`bookSid, this`bookSeq
      ensures ok == !IsGap(old(CurrentFeed()), m)
      ensures CurrentFeed() == if ok then Tracked(old(CurrentFeed()), m) else old(CurrentFeed())
    {
      if IsBookMessage(m) && m.seqNo != 0 {
        var isSnapshot := m.payload.Snapshot?;
        if !isSnapshot && (bookSid.None? || m.sid != bookSid.value || m.seqNo != (bookSeq + 1) % WORD) { return false; }
        bookSid, bookSeq := Some(m.sid), m.seqNo;
      } else if bookSid.Some? && m.sid == bookSid.value && m.seqNo != 0 {
        bookSeq := m.seqNo;
      }
      return true;
    }

    /** Applies a book message or books a fill. */
    method Apply(m: Message) returns (verdict: Verdict)
      requires book.Valid() && tracker.Valid()
      modifies this`unconfirmed, tracker, book, book.yes, book.no
      ensures book.Valid() && tracker.Valid() && (book.yes == old(book.yes) || fresh(book.yes)) && (book.no == old(book.no) || fresh(book.no))
      ensures (CurrentFeed(), verdict) == ApplyMessage(old(CurrentFeed()), m)
      ensures Ledger() == if m.payload.Filled? then Positions.Filled(old(Ledger()), m.payload.fill) else old(Ledger())
    {
      hide Snapshotted, Updated, Positions.Filled;
      match m.payload
      case Snapshot(s) =>
        var r := book.ApplySnapshot(s);
        return if r == Fine then Trade else Stop;
      case Delta(d) =>
        var r := book.ApplyDelta(d);
        return if r == Fine then Trade else if r.kind == KindOutOfSync then SessionOver else Stop;
      case Filled(fill) =>
        OnFill(fill);
        return Ignore;
      case NoPayload =>
        return Ignore;
    }

    /** One text frame of the session loop. `response` is what the order request, if one is made, returns. */
    method OnText(payload: string, now: int, decay: real, response: Option<JsonTree.JsonValue>)
      returns (verdict: Verdict, signal: Option<Signal>)
      requires book.Valid() && tracker.Valid()
      modifies this, tracker, strategy, book, book.yes, book.no
      ensures book.Valid() && tracker.Valid() && book == old(book)
      ensures (book.yes == old(book.yes) || fresh(book.yes)) && (book.no == old(book.no) || fresh(book.no))
      ensures match ThroughTree(payload)
              case None => verdict == Ignore && signal == None && Current() == old(Current())
              case Some(m) => Outcome(Current(), verdict, signal)
                              == OnDecoded(strategy.config, ticker, old(Current()), m, now, decay, response)
    {
      hide ApplyMessage, Tracked, IsGap, AfterTrade, Positions.Filled;
      signal := None;
      var message := KalshiDecoderObject.DecodeMessage(payload);
      if message.None? { return Ignore, None; }
      var m := message.value;
      var ok := Track(m);
      if !ok { GapIsADelta(old(CurrentFeed()), m); return SessionOver, None; }
      verdict := Apply(m);
      if verdict == Trade { signal := OnBookChanged(now, decay, response); }
    }

    /** The strategy decides on the current exposure, and its order is submitted at once. */
    method OnBookChanged(now: int, decay: real, response: Option<JsonTree.JsonValue>) returns (signal: Option<Signal>)
      requires book.Valid() && tracker.Valid()
      modifies this`unconfirmed, strategy
      ensures Outcome(Current(), Trade, signal) == AfterTrade(strategy.config, ticker, old(Current()), now, decay, response)
    {
      hide Next, Submitted, Positions.Exposure, BidOf, AskOf;
      var exposure := Exposure();
      signal := strategy.OnBookUpdate(book, exposure, now, decay);
      if signal.Some? { Submit(signal.value, response); }
    }
  }

  lemma UpdateThenRemove(m: map<string, int>, k: string, v: int)
    ensures m[k := v] - {k} == m - {k}
  {}

  lemma GapIsADelta(f: Feed, m: Message)
    requires IsGap(f, m)
    ensures !m.payload.Filled?
  {}
}
