/** Order-book synchronisation: what the session loop does with one decoded message, and why the book it
    trades on is the exchange's book although the feed may lose, repeat or reorder messages. */
module FeedSync {
  import opened Text
  import opened KalshiMessages
  import opened MarketBook
  import opened MessageTexts
  import FixedPoint

  /** The bot's book, the subscription it came from, and the sequence number it stands at. */
  datatype Feed = Feed(book: Book, sid: Option<nat>, seqNo: nat)

  /** Trade: the book changed and the strategy is called. SessionOver: drop and resubscribe. Stop: give up. */
  datatype Verdict = Trade | Ignore | SessionOver | Stop

  predicate IsBookMessage(m: Message) { m.payload.Snapshot? || m.payload.Delta? }

  /** A delta that does not directly follow the book. `_book_seq + 1` wraps at 32 bits. */
  predicate IsGap(f: Feed, m: Message) {
    && m.payload.Delta? && m.seqNo != 0
    && (f.sid.None? || m.sid != f.sid.value || m.seqNo != (f.seqNo + 1) % WORD)
  }

  /** The sequence bookkeeping, which comes before the message is applied. */
  function Tracked(f: Feed, m: Message): Feed {
    if m.seqNo == 0 then f
    else if IsBookMessage(m) then f.(sid := Some(m.sid), seqNo := m.seqNo)
    else if f.sid == Some(m.sid) then f.(seqNo := m.seqNo)
    else f
  }

  /** A book message is applied to the book; anything else leaves it alone. */
  function ApplyMessage(g: Feed, m: Message): (r: (Feed, Verdict))
    requires WellShapedBook(g.book)
    ensures WellShapedBook(r.0.book)
  {
    match m.payload
    case Snapshot(s) =>
      (match Snapshotted(s)
       case Applied(b) => (g.(book := b), Trade)
       case _ => (g, Stop))
    case Delta(d) =>
      (match Updated(g.book, d)
       case Applied(b) => (g.(book := b), Trade)
       case OutOfSync(b) => (g.(book := b), SessionOver)
       case Malformed => (g, Stop))
    case _ => (g, Ignore)
  }

  function OnMessage(f: Feed, m: Message): (r: (Feed, Verdict))
    requires WellShapedBook(f.book)
    ensures WellShapedBook(r.0.book)
  {
    if IsGap(f, m) then (f, SessionOver) else ApplyMessage(Tracked(f, m), m)
  }

  // ---- the exchange

  /** What the exchange sends on one subscription: message `i` carries sequence number `base + i`. */
  datatype Subscription = Subscription(base: nat, messages: seq<Payload>)

  type Exchange = map<nat, Subscription>

  /** The exchange's own book after these messages; other channels' messages leave it alone. */
  function ExchangeBook(ps: seq<Payload>): (r: Option<Book>)
    ensures r.Some? ==> WellShapedBook(r.value)
  {
    if ps == [] then None
    else
      var before := ExchangeBook(ps[..|ps| - 1]);
      match ps[|ps| - 1]
      case Snapshot(s) => if Snapshotted(s).Applied? then Some(Snapshotted(s).book) else None
      case Delta(d) => if before.Some? && Updated(before.value, d).Applied? then Some(Updated(before.value, d).book) else None
      case _ => before
  }

  /** A subscription opens with a snapshot, its numbers are nonzero and fit in 32 bits, and the exchange's
      own book is defined throughout: nothing malformed, no level below zero. */
  ghost predicate Sound(sub: Subscription) {
    && sub.base > 0 && sub.base + |sub.messages| <= WORD
    && forall k :: 0 < k <= |sub.messages| ==> ExchangeBook(sub.messages[..k]).Some?
  }

  ghost predicate SoundExchange(ex: Exchange) { forall sid :: sid in ex ==> Sound(ex[sid]) }

  ghost predicate Carries(sub: Subscription, seqNo: nat, p: Payload) {
    sub.base <= seqNo < sub.base + |sub.messages| && sub.messages[seqNo - sub.base] == p
  }

  /** A delivered message is one the exchange sent, at any time and in any order. A message of another
      channel counts as sent on a book subscription only if it shares its id. */
  ghost predicate Genuine(ex: Exchange, m: Message) {
    if IsBookMessage(m) then m.sid in ex && Carries(ex[m.sid], m.seqNo, m.payload)
    else m.sid in ex && m.seqNo != 0 ==> Carries(ex[m.sid], m.seqNo, m.payload)
  }

  /** The book is the exchange's book at the tracked sequence number. */
  ghost predicate InSync(ex: Exchange, f: Feed) {
    f.sid.Some? ==>
      && f.sid.value in ex
      && var sub := ex[f.sid.value];
         && sub.base <= f.seqNo < sub.base + |sub.messages|
         && ExchangeBook(sub.messages[..f.seqNo - sub.base + 1]) == Some(f.book)
  }

  /** A message of another channel that moves the tracked number moves it by at most one. */
  predicate NoJump(f: Feed, m: Message) {
    !IsBookMessage(m) && m.seqNo != 0 && f.sid == Some(m.sid) ==> m.seqNo == f.seqNo || m.seqNo == f.seqNo + 1
  }

  lemma NextExchangeBook(sub: Subscription, k: nat)
    requires k < |sub.messages|
    ensures sub.messages[..k + 1][..k] == sub.messages[..k]
    ensures sub.messages[..k + 1][k] == sub.messages[k]
  {}

  /** One message keeps the book in sync; the book is never clamped and never malformed. */
  lemma MessageKeepsSync(ex: Exchange, f: Feed, m: Message)
    requires WellShapedBook(f.book) && SoundExchange(ex) && InSync(ex, f) && Genuine(ex, m) && NoJump(f, m)
    ensures var (g, verdict) := OnMessage(f, m);
      && InSync(ex, g)
      && verdict != Stop
      && (verdict == Trade ==> g.sid == Some(m.sid) && g.seqNo == m.seqNo)
      && (verdict == SessionOver <==> IsGap(f, m))
  {
    hide Snapshotted, Updated;
    if m.sid in ex && Carries(ex[m.sid], m.seqNo, m.payload) {
      var sub := ex[m.sid];
      var k := m.seqNo - sub.base;
      NextExchangeBook(sub, k);
      assert ExchangeBook(sub.messages[..k + 1]).Some?;
    }
  }

  // ---- whole runs over any number of sessions

  /** A new subscription, or one text frame that decoded to a message or to nothing. */
  datatype Event = Subscribe | Deliver(message: Option<Message>)

  datatype Run = Run(feed: Feed, live: bool, running: bool)

  const START := Run(Feed(EMPTY_BOOK, None, 0), false, true)

  /** A session starts from an empty book and no subscription id; the old number stays. */
  function Happens(r: Run, e: Event): (r': Run)
    requires WellShapedBook(r.feed.book)
    ensures WellShapedBook(r'.feed.book)
  {
    if !r.running then r
    else
      match e
      case Subscribe => r.(feed := Feed(EMPTY_BOOK, None, r.feed.seqNo), live := true)
      case Deliver(None) => r
      case Deliver(Some(m)) =>
        if !r.live then r
        else
          var (g, verdict) := OnMessage(r.feed, m);
          Run(g, verdict != SessionOver && verdict != Stop, verdict != Stop)
  }

  predicate Trades(r: Run, e: Event)
    requires WellShapedBook(r.feed.book)
  {
    r.running && r.live && e.Deliver? && e.message.Some? && OnMessage(r.feed, e.message.value).1 == Trade
  }

  /** The run after `n` events. */
  function At(es: seq<Event>, n: nat): (r: Run)
    requires n <= |es|
    ensures WellShapedBook(r.feed.book)
  {
    if n == 0 then START else Happens(At(es, n - 1), es[n - 1])
  }

  /** The feed may lose, repeat and reorder: only what is delivered has to be genuine, and messages of other
      channels on a shared id must not skip numbers. */
  ghost predicate FaithfulFeed(ex: Exchange, es: seq<Event>) {
    forall i :: 0 <= i < |es| && es[i].Deliver? && es[i].message.Some? ==>
      Genuine(ex, es[i].message.value) && NoJump(At(es, i).feed, es[i].message.value)
  }

  lemma {:induction false} RunStaysInSync(ex: Exchange, es: seq<Event>, n: nat)
    requires SoundExchange(ex) && FaithfulFeed(ex, es) && n <= |es|
    ensures InSync(ex, At(es, n).feed) && At(es, n).running
  {
    hide OnMessage, InSync;
    if n > 0 {
      RunStaysInSync(ex, es, n - 1);
      EventKeepsSync(ex, At(es, n - 1), es[n - 1]);
    } else {
      NoSidIsInSync(ex, START.feed);
    }
  }

  lemma NoSidIsInSync(ex: Exchange, f: Feed)
    requires f.sid.None?
    ensures InSync(ex, f)
  {}

  lemma EventKeepsSync(ex: Exchange, r: Run, e: Event)
    requires WellShapedBook(r.feed.book) && SoundExchange(ex) && InSync(ex, r.feed) && r.running
    requires e.Deliver? && e.message.Some? ==> Genuine(ex, e.message.value) && NoJump(r.feed, e.message.value)
    ensures InSync(ex, Happens(r, e).feed) && Happens(r, e).running
  {
    hide OnMessage, InSync;
    match e
    case Subscribe => NoSidIsInSync(ex, Feed(EMPTY_BOOK, None, r.feed.seqNo));
    case Deliver(None) =>
    case Deliver(Some(m)) => MessageKeepsSync(ex, r.feed, m);
  }

  /** Whenever the strategy is called, the book is the exchange's book at the tracked subscription and number. */
  lemma EveryTradeSeesTheExchangeBook(ex: Exchange, es: seq<Event>, i: nat)
    requires SoundExchange(ex) && FaithfulFeed(ex, es) && i < |es| && Trades(At(es, i), es[i])
    ensures var f := At(es, i + 1).feed;
      f.sid.Some? && InSync(ex, f) && f.sid == Some(es[i].message.value.sid) && f.seqNo == es[i].message.value.seqNo
  {
    RunStaysInSync(ex, es, i);
    RunStaysInSync(ex, es, i + 1);
    hide InSync, Genuine;
    MessageKeepsSync(ex, At(es, i).feed, es[i].message.value);
  }

  /** If other channels never share a book subscription's id, the feed needs no further care. */
  lemma {:induction false} PrivateChannelsAreFaithful(ex: Exchange, es: seq<Event>)
    requires SoundExchange(ex)
    requires forall i :: 0 <= i < |es| && es[i].Deliver? && es[i].message.Some? ==>
      Genuine(ex, es[i].message.value) && (!IsBookMessage(es[i].message.value) ==> es[i].message.value.sid !in ex)
    ensures FaithfulFeed(ex, es)
  {
    if es != [] {
      var n := |es| - 1;
      var init := es[..n];
      PrivateChannelsAreFaithful(ex, init);
      PrefixRuns(es, n);
      RunStaysInSync(ex, init, n);
      forall i | 0 <= i < |es| && es[i].Deliver? && es[i].message.Some?
        ensures NoJump(At(es, i).feed, es[i].message.value)
      {
        if i < n { assert init[i] == es[i]; }
      }
    }
  }

  lemma {:induction false} PrefixRuns(es: seq<Event>, n: nat)
    requires n <= |es|
    ensures forall i :: 0 <= i <= n ==> At(es[..n], i) == At(es, i)
  {
    hide Happens;
    for i := 0 to n
      invariant forall j :: 0 <= j <= i ==> At(es[..n], j) == At(es, j)
    {
      assert es[..n][i] == es[i];
    }
  }

  // ---- deltas without a number

  /** A delta without a number is applied unchecked. On a synchronised book that is safe exactly if it changes
      nothing. */
  lemma UnnumberedIsSafeExactlyIfIdle(ex: Exchange, f: Feed, m: Message)
    requires WellShapedBook(f.book) && f.sid.Some? && InSync(ex, f) && m.payload.Delta? && m.seqNo == 0
    ensures InSync(ex, OnMessage(f, m).0) <==> OnMessage(f, m).0.book == f.book
  {
    hide Updated, ExchangeBook;
  }

  /** A delta of the exchange, sent again in a text without a number, takes the book out of sync, and the strategy
      is asked about it. */
  lemma UnnumberedLosesSync() returns (ex: Exchange, f: Feed, text: string)
    ensures SoundExchange(ex) && WellShapedBook(f.book) && f.sid.Some? && InSync(ex, f) && ThroughTree(text).Some?
    ensures var m := ThroughTree(text).value;
      && m.seqNo == 0 && f.sid == Some(m.sid) && Carries(ex[m.sid], f.seqNo, m.payload)
      && OnMessage(f, m).1 == Trade && !InSync(ex, OnMessage(f, m).0)
  {
    hide Ladder, NoLevels, RungBook, ExchangeBook, ThroughTree, UnnumberedText, Updated;
    ex := map[7 := Subscription(1, Ladder(3, 2))];
    f := Feed(RungBook(Height(3, 2)), Some(7), 2);
    var m := Message("orderbook_delta", 7, 0, Delta(RISE));
    text := UnnumberedText(m);
    UnnumberedDecodes(m);
    LadderIsSound(3, 2);
    LadderBook(3, 2, 2);
    RiseStep(100);
    UnnumberedIsSafeExactlyIfIdle(ex, f, m);
    assert RungBook(200).yes[500] != RungBook(100).yes[500];
  }

  // ---- the unchecked advance of a shared sequence number

  /** A text that decodes to a message of another channel with number `n`, on the book's id. */
  ghost predicate OtherChannel(f: Feed, text: string, n: nat) {
    ThroughTree(text).Some? && var m := ThroughTree(text).value; !IsBookMessage(m) && f.sid == Some(m.sid) && m.seqNo == n
  }

  /** Such a text, received while the book stands at `q`, keeps every book in sync. */
  ghost predicate AdvanceIsSafe(q: nat, n: nat) {
    forall ex: Exchange, f: Feed, text: string ::
      && SoundExchange(ex) && WellShapedBook(f.book) && InSync(ex, f) && f.seqNo == q
      && OtherChannel(f, text, n) && Genuine(ex, ThroughTree(text).value)
      ==> InSync(ex, OnMessage(f, ThroughTree(text).value).0)
  }

  /** The advance is unchecked in the source; it is safe exactly for a repeat or the next number. The number 0
      means none, and 1 can only be the snapshot that opens a subscription. */
  lemma AdvanceIsSafeExactlyWithoutJump(q: nat, n: nat)
    requires 1 <= q < WORD && n < WORD
    ensures AdvanceIsSafe(q, n) <==> n <= 1 || n == q || n == q + 1
  {
    hide ThroughTree;
    if n <= 1 || n == q || n == q + 1 {
      forall ex: Exchange, f: Feed, text: string |
        && SoundExchange(ex) && WellShapedBook(f.book) && InSync(ex, f) && f.seqNo == q
        && OtherChannel(f, text, n) && Genuine(ex, ThroughTree(text).value)
        ensures InSync(ex, OnMessage(f, ThroughTree(text).value).0)
      {
        SafeAdvance(ex, f, ThroughTree(text).value);
      }
    } else {
      var ex, f, text := JumpLosesSync(q, n);
    }
  }

  lemma SafeAdvance(ex: Exchange, f: Feed, m: Message)
    requires SoundExchange(ex) && WellShapedBook(f.book) && InSync(ex, f) && Genuine(ex, m)
    requires !IsBookMessage(m) && f.sid == Some(m.sid)
    requires m.seqNo <= 1 || m.seqNo == f.seqNo || m.seqNo == f.seqNo + 1
    ensures InSync(ex, OnMessage(f, m).0)
  {
    if m.seqNo <= 1 { FirstIsNoOtherChannel(ex, m); }
    MessageKeepsSync(ex, f, m);
  }

  /** The first message of a subscription is its snapshot. */
  lemma FirstIsNoOtherChannel(ex: Exchange, m: Message)
    requires SoundExchange(ex) && Genuine(ex, m) && !IsBookMessage(m) && m.sid in ex && m.seqNo <= 1
    ensures m.seqNo == 0
  {
    hide ExchangeBook;
    NoBookWithoutSnapshot(m.payload);
    var ps := ex[m.sid].messages;
    assert ps != [] ==> ps[..1] == [ps[0]] && ExchangeBook(ps[..1]).Some?;
  }

  lemma NoBookWithoutSnapshot(p: Payload)
    requires !p.Snapshot? && !p.Delta?
    ensures ExchangeBook([p]).None?
  {
    assert [p][..0] == [];
  }

  const RISE := OrderBookDelta("", "", "0.5", "1", "yes", "", 0)

  const FILL := Filled(Fill("", "", "1", Buy))

  function RungBook(level: int): (b: Book)
    ensures b.yes == NoLevels()[500 := level] && WellShapedBook(b)
  {
    Book("", NoLevels()[500 := level], NoLevels())
  }

  /** A snapshot, then one rise per message, except that message `n` is a fill. */
  function Rung(n: nat, i: nat): Payload {
    if i == 0 then Snapshot(OrderBookSnapshot("", "", [], [])) else if i == n - 1 then FILL else Delta(RISE)
  }

  function Ladder(n: nat, length: nat): (ps: seq<Payload>)
    ensures |ps| == length && forall i :: 0 <= i < length ==> ps[i] == Rung(n, i)
  {
    seq(length, i requires i >= 0 => Rung(n, i))
  }

  /** The level after the first `k` messages of the ladder. */
  function Height(n: nat, k: nat): nat
    requires 2 <= n && 0 < k
  {
    if k < n then 100 * (k - 1) else 100 * (k - 2)
  }

  lemma PriceParses()
    ensures ParsePrice("0.5") == Some(500)
  {
    var half := "0.5";
    assert FixedPoint.Point(half) == 1 && FixedPoint.Whole(half) == "0" && FixedPoint.Fraction(half) == "5";
    assert "0" + "5" == "05" && "05"[..1] == "0" && "0"[..0] == "";
    assert Value("05", 10) == 5;
    assert Pow(10, 3) == 1000 && Pow(10, 1) == 10;
    FixedPoint.ParseFixedIsExact(half, 3, 500);
  }

  lemma QuantityParses()
    ensures ParseQuantity("1") == Some(100)
  {
    var one := "1";
    assert FixedPoint.Point(one) == 1 && FixedPoint.Whole(one) == "1" && FixedPoint.Fraction(one) == "";
    assert "1" + "" == "1" && "1"[..0] == "";
    assert Value("1", 10) == 1;
    assert Pow(10, 2) == 100 && Pow(10, 0) == 1;
    FixedPoint.ParseFixedIsExact(one, 2, 100);
  }

  lemma RiseStep(level: nat)
    ensures Updated(RungBook(level), RISE) == Applied(RungBook(level + 100))
  {
    PriceParses();
    QuantityParses();
    hide ParsePrice, ParseQuantity, NoLevels;
    assert NoLevels()[500 := level][500 := level + 100] == NoLevels()[500 := level + 100];
  }

  lemma EmptySnapshot()
    ensures Snapshotted(OrderBookSnapshot("", "", [], [])) == Applied(RungBook(0))
  {
    assert NoLevels()[500 := 0] == NoLevels();
  }

  lemma {:induction false} LadderBook(n: nat, length: nat, k: nat)
    requires 2 <= n && 0 < k <= length
    ensures ExchangeBook(Ladder(n, length)[..k]) == Some(RungBook(Height(n, k)))
  {
    hide Updated, Snapshotted, NoLevels, RungBook, Ladder;
    var ps := Ladder(n, length)[..k];
    assert ps[..k - 1] == Ladder(n, length)[..k - 1] && ps[k - 1] == Rung(n, k - 1);
    if k == 1 {
      EmptySnapshot();
    } else {
      LadderBook(n, length, k - 1);
      if k != n { RiseStep(Height(n, k - 1)); }
    }
  }

  lemma LadderIsSound(n: nat, length: nat)
    requires 2 <= n && length < WORD
    ensures Sound(Subscription(1, Ladder(n, length)))
  {
    hide Ladder, ExchangeBook, RungBook;
    forall k | 0 < k <= length ensures ExchangeBook(Ladder(n, length)[..k]).Some? { LadderBook(n, length, k); }
  }

  /** For any other jump there is an exchange and the text of a fill after which the book is wrong. */
  lemma JumpLosesSync(q: nat, n: nat) returns (ex: Exchange, f: Feed, text: string)
    requires 1 <= q < WORD && 2 <= n < WORD && n != q && n != q + 1
    ensures SoundExchange(ex) && WellShapedBook(f.book) && InSync(ex, f) && f.seqNo == q
    ensures OtherChannel(f, text, n) && Genuine(ex, ThroughTree(text).value)
    ensures OnMessage(f, ThroughTree(text).value).1 == Ignore && !InSync(ex, OnMessage(f, ThroughTree(text).value).0)
  {
    hide Ladder, NoLevels, RungBook, ExchangeBook, ThroughTree, MessageText;
    var length := if q < n then n else q;
    var sub := Subscription(1, Ladder(n, length));
    ex := map[7 := sub];
    f := Feed(RungBook(Height(n, q)), Some(7), q);
    var m := Message("fill", 7, n, FILL);
    text := MessageText(m);
    TextDecodes(m);
    LadderIsSound(n, length);
    LadderBook(n, length, q);
    LadderBook(n, length, n);
    assert RungBook(Height(n, n)).yes[500] != f.book.yes[500];
  }
}
