/** A whole session, from the bytes of the connection to the bot's state: what the loop over received frames does
    depends on the byte stream alone, not on how reads cut it up, and it keeps the bot safe. */
module Sessions {
  import opened Text
  import opened WebSocketFrames
  import opened WebSocketStream
  import opened KalshiMessages
  import opened MarketBook
  import opened Strategies
  import opened FeedSync
  import opened Positions
  import opened TradingBots
  import opened TradingBotSafety
  import JsonTree

  /** What surrounds the handling of a frame: the clock, the decay, and what becomes of an order if one is sent. */
  datatype Moment = Moment(now: int, decay: real, response: Option<JsonTree.JsonValue>, id: string, filled: nat)

  /** Frame payloads are bytes; a text has one character per byte. */
  function TextOf(payload: seq<byte>): string { seq(|payload|, i requires 0 <= i < |payload| => payload[i] as char) }

  /** What one text leads to; a text that does not decode changes nothing. */
  ghost function OnPayload(cfg: Config, ticker: string, b: Bot, text: string, at: Moment): (Bot, Verdict)
    requires WellShapedBot(b)
  {
    match ThroughTree(text)
    case None => (b, Ignore)
    case Some(m) => var o := OnDecoded(cfg, ticker, b, m, at.now, at.decay, at.response); (o.bot, o.verdict)
  }

  predicate Ends(verdict: Verdict) { verdict == SessionOver || verdict == Stop }

  lemma PayloadKeepsShape(cfg: Config, ticker: string, b: Bot, text: string, at: Moment)
    requires WellShapedBot(b)
    ensures WellShapedBot(OnPayload(cfg, ticker, b, text, at).0)
  {
    hide Next, Submitted, Positions.Exposure, Positions.Filled;
  }

  /** The bot after a session's frames, the `k`-th of them handled at `at(k)`. A close frame or a verdict ends the
      session; frames that are neither text nor close pass by. */
  ghost function AfterFrames(cfg: Config, ticker: string, b: Bot, frames: seq<Frame>, at: nat -> Moment, k: nat): Bot
    requires WellShapedBot(b)
    decreases frames
  {
    if frames == [] || frames[0].opcode == Close then b
    else if frames[0].opcode != TextFrame then AfterFrames(cfg, ticker, b, frames[1..], at, k + 1)
    else
      var (b', verdict) := OnPayload(cfg, ticker, b, TextOf(frames[0].payload), at(k));
      PayloadKeepsShape(cfg, ticker, b, TextOf(frames[0].payload), at(k));
      if Ends(verdict) then b' else AfterFrames(cfg, ticker, b', frames[1..], at, k + 1)
  }

  function Reset(f: Feed): Feed { Feed(EMPTY_BOOK, None, f.seqNo) }

  /** The session loop over a connection and a bot. The outcome is given by the frames of the byte stream, however
      the reads deliver it. */
  method RunSession(ws: WebSocket, bot: TradingBot, at: nat -> Moment)
    requires ws.Valid() && bot.tracker.Valid()
    modifies ws, bot, bot.tracker, bot.strategy
    ensures ws.Valid() && bot.tracker.Valid() && bot.book.Valid()
    ensures var b := old(bot.Current());
      bot.Current() == AfterFrames(bot.strategy.config, bot.ticker, b.(feed := Reset(b.feed)), FramesOf(old(ws.Pending())), at, 0)
  {
    hide ParseFrame, OnDecoded, ThroughTree;
    bot.StartSession();
    ghost var goal := AfterFrames(bot.strategy.config, bot.ticker, bot.Current(), FramesOf(ws.Pending()), at, 0);
    var k := 0;
    while true
      invariant ws.Valid() && bot.tracker.Valid() && bot.book.Valid()
      invariant fresh(bot.book) && fresh(bot.book.yes) && fresh(bot.book.no)
      invariant goal == AfterFrames(bot.strategy.config, bot.ticker, bot.Current(), FramesOf(ws.Pending()), at, k)
      decreases |ws.Pending()|
    {
      ghost var frames := FramesOf(ws.Pending());
      var r := ws.ReceiveFrame();
      if !r.Got? { return; }
      assert frames[1..] == FramesOf(ws.Pending());
      if r.frame.opcode == Close { return; }
      if r.frame.opcode == TextFrame {
        var m := at(k);
        var verdict, signal := bot.OnText(TextOf(r.frame.payload), m.now, m.decay, m.response);
        if Ends(verdict) { return; }
      }
      k := k + 1;
    }
  }

  // ---- what reaches the bot

  /** The bytes of a text, one per character. */
  function BytesOf(text: string): seq<byte>
    requires forall i :: 0 <= i < |text| ==> text[i] < 256 as char
  {
    seq(|text|, i requires 0 <= i < |text| => text[i] as byte)
  }

  /** The bot is given the text that was sent. */
  lemma TextArrives(text: string)
    requires forall i :: 0 <= i < |text| ==> text[i] < 256 as char
    ensures TextOf(BytesOf(text)) == text
  {}

  /** The texts of a session up to its close frame, each with the place of its frame. */
  function TextsUntilClose(frames: seq<Frame>, k: nat): seq<(string, nat)> {
    if frames == [] || frames[0].opcode == Close then []
    else if frames[0].opcode == TextFrame then [(TextOf(frames[0].payload), k)] + TextsUntilClose(frames[1..], k + 1)
    else TextsUntilClose(frames[1..], k + 1)
  }

  /** The bot after these texts, up to the first that ends the session. */
  ghost function AfterTexts(cfg: Config, ticker: string, b: Bot, ts: seq<(string, nat)>, at: nat -> Moment): Bot
    requires WellShapedBot(b)
    decreases ts
  {
    if ts == [] then b
    else
      var (b', verdict) := OnPayload(cfg, ticker, b, ts[0].0, at(ts[0].1));
      PayloadKeepsShape(cfg, ticker, b, ts[0].0, at(ts[0].1));
      if verdict == SessionOver || verdict == Stop then b' else AfterTexts(cfg, ticker, b', ts[1..], at)
  }

  /** A session handles every text frame before the close frame, in order, and nothing else. */
  lemma {:induction false} SessionHandlesItsTexts(
    cfg: Config, ticker: string, b: Bot, frames: seq<Frame>, at: nat -> Moment, k: nat)
    requires WellShapedBot(b)
    ensures AfterFrames(cfg, ticker, b, frames, at, k) == AfterTexts(cfg, ticker, b, TextsUntilClose(frames, k), at)
    decreases frames
  {
    hide OnPayload, WellShapedBot, TextOf;
    if frames != [] && frames[0].opcode != Close {
      var text := TextOf(frames[0].payload);
      if frames[0].opcode == TextFrame {
        PayloadKeepsShape(cfg, ticker, b, text, at(k));
        SessionHandlesItsTexts(cfg, ticker, OnPayload(cfg, ticker, b, text, at(k)).0, frames[1..], at, k + 1);
        var ts := TextsUntilClose(frames, k);
        assert ts[0] == (text, k) && ts[1..] == TextsUntilClose(frames[1..], k + 1);
      } else {
        SessionHandlesItsTexts(cfg, ticker, b, frames[1..], at, k + 1);
      }
    }
  }

  /** A text that does not decode might as well not have been sent. */
  lemma {:induction false} UndecodableTextPassesBy(
    cfg: Config, ticker: string, b: Bot, ts: seq<(string, nat)>, at: nat -> Moment, i: nat)
    requires WellShapedBot(b) && i < |ts| && ThroughTree(ts[i].0).None?
    ensures AfterTexts(cfg, ticker, b, ts, at) == AfterTexts(cfg, ticker, b, ts[..i] + ts[i + 1..], at)
    decreases i
  {
    hide OnDecoded, ThroughTree, WellShapedBot;
    var rest := ts[..i] + ts[i + 1..];
    if i == 0 {
      assert rest == ts[1..];
    } else {
      var (b', _) := OnPayload(cfg, ticker, b, ts[0].0, at(ts[0].1));
      PayloadKeepsShape(cfg, ticker, b, ts[0].0, at(ts[0].1));
      UndecodableTextPassesBy(cfg, ticker, b', ts[1..], at, i - 1);
      assert rest[0] == ts[0] && rest[1..] == ts[1..][..i - 1] + ts[1..][i..];
    }
  }

  // ---- safety of the session

  ghost function InputOf(text: string, at: Moment): Input { Text(text, at.now, at.decay, at.response, at.id, at.filled) }

  /** The environment plays fair at every text of the session. */
  ghost predicate FairSession(
    ex: Exchange, cfg: Config, ticker: string, s: Situation, frames: seq<Frame>, at: nat -> Moment, k: nat)
    decreases frames
  {
    && WellShapedBot(s.bot)
    && (frames == [] || frames[0].opcode == Close
        || (frames[0].opcode != TextFrame && FairSession(ex, cfg, ticker, s, frames[1..], at, k + 1))
        || (frames[0].opcode == TextFrame
            && exists s' :: BotStep(ex, cfg, ticker, s, InputOf(TextOf(frames[0].payload), at(k)), s')
                         && (Ends(OnPayload(cfg, ticker, s.bot, TextOf(frames[0].payload), at(k)).1)
                             || FairSession(ex, cfg, ticker, s', frames[1..], at, k + 1))))
  }

  /** A step of the run is what the text does to the bot. */
  lemma StepIsPayload(ex: Exchange, cfg: Config, ticker: string, s: Situation, text: string, at: Moment, s': Situation)
    requires BotStep(ex, cfg, ticker, s, InputOf(text, at), s')
    ensures s'.bot == OnPayload(cfg, ticker, s.bot, text, at).0
  {
    hide OnDecoded, ThroughTree, Genuine, NoJump, Possible;
  }

  /** A session that starts safe and is treated fairly ends safe, with the bot in the state the frames give. */
  lemma {:induction false} SessionIsSafe(
    ex: Exchange, cfg: Config, ticker: string, s: Situation, frames: seq<Frame>, at: nat -> Moment, k: nat)
    returns (s': Situation)
    requires SoundExchange(ex) && Safe(ex, cfg, ticker, s) && FairSession(ex, cfg, ticker, s, frames, at, k)
    ensures Safe(ex, cfg, ticker, s') && s'.bot == AfterFrames(cfg, ticker, s.bot, frames, at, k)
    decreases frames
  {
    hide SoundExchange, Safe, BotStep, OnPayload, WellShapedBot;
    s' := s;
    if frames != [] && frames[0].opcode != Close {
      if frames[0].opcode != TextFrame {
        s' := SessionIsSafe(ex, cfg, ticker, s, frames[1..], at, k + 1);
      } else {
        var text := TextOf(frames[0].payload);
        var t :| BotStep(ex, cfg, ticker, s, InputOf(text, at(k)), t)
              && (Ends(OnPayload(cfg, ticker, s.bot, text, at(k)).1) || FairSession(ex, cfg, ticker, t, frames[1..], at, k + 1));
        StepIsSafe(ex, cfg, ticker, s, InputOf(text, at(k)), t);
        StepIsPayload(ex, cfg, ticker, s, text, at(k), t);
        s' := t;
        if !Ends(OnPayload(cfg, ticker, s.bot, text, at(k)).1) {
          s' := SessionIsSafe(ex, cfg, ticker, t, frames[1..], at, k + 1);
        }
      }
    }
  }

  /** The situation at the start of a session: the book forgotten, everything else as it was. */
  ghost function Connected(s: Situation): Situation { s.(bot := s.bot.(feed := Reset(s.bot.feed))) }

  /** The session loop run on the real objects, on any byte stream cut into reads in any way: from a safe situation
      and treated fairly, it leaves the bot safe. */
  method RunSafeSession(ws: WebSocket, bot: TradingBot, at: nat -> Moment, ghost ex: Exchange, ghost s: Situation)
    returns (ghost s': Situation)
    requires ws.Valid() && bot.tracker.Valid() && s.bot == bot.Current()
    requires SoundExchange(ex) && Safe(ex, bot.strategy.config, bot.ticker, s)
    requires FairSession(ex, bot.strategy.config, bot.ticker, Connected(s), FramesOf(ws.Pending()), at, 0)
    modifies ws, bot, bot.tracker, bot.strategy
    ensures bot.tracker.Valid() && bot.book.Valid()
    ensures s'.bot == bot.Current() && Safe(ex, bot.strategy.config, bot.ticker, s')
  {
    hide SoundExchange, Safe, FairSession, AfterFrames, FramesOf, BotStep;
    ghost var frames := FramesOf(ws.Pending());
    ConnectedIsSafe(ex, bot.strategy.config, bot.ticker, s);
    RunSession(ws, bot, at);
    s' := SessionIsSafe(ex, bot.strategy.config, bot.ticker, Connected(s), frames, at, 0);
  }

  lemma ConnectedIsSafe(ex: Exchange, cfg: Config, ticker: string, s: Situation)
    requires SoundExchange(ex) && Safe(ex, cfg, ticker, s)
    ensures Safe(ex, cfg, ticker, Connected(s))
  {
    hide SoundExchange, Balanced, NearCap, InSync;
    StepIsSafe(ex, cfg, ticker, s, NewSession, Connected(s));
  }
}
