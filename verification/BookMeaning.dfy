/** What the book holds, in terms of the texts the exchange sent: prices in thousandths of a dollar, quantities in
    hundredths of a contract. */
module BookMeaning {
  import opened Text
  import opened KalshiMessages
  import opened MarketBook
  import opened FeedSync
  import FixedPoint

  // ---- prices and quantities

  /** Strictly between 0 and 1 dollar, on a grid of a tenth of a cent. */
  predicate PriceIs(t: string, p: int) { FixedPoint.Denotes(t, 3, p) && 1 <= p <= 999 }

  predicate QuantityIs(t: string, q: int) {
    FixedPoint.Denotes(t, 2, q) && -9223372036854775807 <= q <= 9223372036854775807
  }

  lemma PriceIsRead(t: string, p: int)
    ensures ParsePrice(t) == Some(p) <==> PriceIs(t, p)
  {
    hide FixedPoint.ParsedFixed, FixedPoint.Denotes;
    FixedPoint.ParseFixedIsExact(t, 3, p);
  }

  lemma QuantityIsRead(t: string, q: int)
    ensures ParseQuantity(t) == Some(q) <==> QuantityIs(t, q)
  {
    hide FixedPoint.ParsedFixed, FixedPoint.Denotes;
    FixedPoint.ParseFixedIsExact(t, 2, q);
  }

  // ---- one delta

  function Side(b: Book, side: string): Levels { if side == "yes" then b.yes else b.no }

  /** The delta names a side, a price and a quantity. */
  ghost predicate IsChange(d: OrderBookDelta, p: int, q: int) {
    (d.side == "yes" || d.side == "no") && PriceIs(d.priceDollars, p) && QuantityIs(d.deltaFp, q)
  }

  /** `b'` is `b` with one level of one side changed. */
  ghost predicate Sets(b: Book, side: string, p: int, level: int, b': Book) {
    && 0 <= p < |Side(b, side)|
    && b' == if side == "yes" then b.(yes := b.yes[p := level]) else b.(no := b.no[p := level])
  }

  /** A delta adds to the level it names; one that would go below zero empties it and is reported; one that
      cannot be read changes nothing. */
  lemma DeltaIsApplied(b: Book, d: OrderBookDelta)
    requires WellShapedBook(b)
    ensures forall p, q :: IsChange(d, p, q) ==>
      var level := Side(b, d.side)[p] + q;
      if level >= 0 then Updated(b, d).Applied? && Sets(b, d.side, p, level, Updated(b, d).book)
      else Updated(b, d).OutOfSync? && Sets(b, d.side, p, 0, Updated(b, d).book)
    ensures Updated(b, d).Malformed? <==> !exists p, q :: IsChange(d, p, q)
  {
    hide ParsePrice, ParseQuantity, PriceIs, QuantityIs;
    assert "yes" != "no" by { assert |"yes"| != |"no"|; }
    forall p, q | IsChange(d, p, q) ensures ParsePrice(d.priceDollars) == Some(p) && ParseQuantity(d.deltaFp) == Some(q) {
      PriceIsRead(d.priceDollars, p);
      QuantityIsRead(d.deltaFp, q);
    }
    var price, quantity := ParsePrice(d.priceDollars), ParseQuantity(d.deltaFp);
    if price.Some? && quantity.Some? {
      PriceIsRead(d.priceDollars, price.value);
      QuantityIsRead(d.deltaFp, quantity.value);
      assert (d.side == "yes" || d.side == "no") ==> IsChange(d, price.value, quantity.value);
    }
  }

  // ---- one snapshot

  /** Entry `i` sets price `p` to `q`, and no later entry of the side names `p`. */
  ghost predicate SetsLast(ls: seq<PriceLevel>, i: nat, p: int, q: int) {
    && i < |ls| && PriceIs(ls[i].price, p) && QuantityIs(ls[i].quantity, q)
    && forall j :: i < j < |ls| ==> !PriceIs(ls[j].price, p)
  }

  ghost predicate Named(ls: seq<PriceLevel>, p: int) { exists i :: 0 <= i < |ls| && PriceIs(ls[i].price, p) }

  /** What one side of a snapshot says about a price. */
  ghost predicate SideSays(ls: seq<PriceLevel>, p: int, q: int) {
    if Named(ls, p) then exists i :: SetsLast(ls, i, p, q) else q == 0
  }

  ghost predicate ReadableEntry(l: PriceLevel) {
    (exists p :: PriceIs(l.price, p)) && exists q :: QuantityIs(l.quantity, q)
  }

  ghost predicate Readable(ls: seq<PriceLevel>) { forall i :: 0 <= i < |ls| ==> ReadableEntry(ls[i]) }

  lemma {:induction false} SideIsExact(ls: seq<PriceLevel>)
    ensures SideOf(ls).Some? <==> Readable(ls)
    ensures SideOf(ls).Some? ==> forall p :: 0 <= p <= 1000 ==> SideSays(ls, p, SideOf(ls).value[p])
  {
    hide ParsePrice, ParseQuantity, PriceIs, QuantityIs, ReadableEntry;
    if ls != [] {
      var n := |ls| - 1;
      var init, l := ls[..n], ls[n];
      assert forall i :: 0 <= i < n ==> init[i] == ls[i];
      SideIsExact(init);
      EntryIsExact(l);
      if SideOf(ls).Some? {
        var price, q := ParsePrice(l.price).value, ParseQuantity(l.quantity).value;
        PriceIsRead(l.price, price);
        QuantityIsRead(l.quantity, q);
        forall p | 0 <= p <= 1000 ensures SideSays(ls, p, SideOf(ls).value[p]) {
          PriceIsRead(l.price, p);
          LastEntryCounts(ls, p, price, q, SideOf(init).value[p]);
        }
      }
      assert Readable(ls) <==> Readable(init) && ReadableEntry(l);
    }
  }

  lemma EntryIsExact(l: PriceLevel)
    ensures ParsePrice(l.price).Some? && ParseQuantity(l.quantity).Some? <==> ReadableEntry(l)
  {
    hide ParsePrice, ParseQuantity, PriceIs, QuantityIs;
    forall p ensures ParsePrice(l.price) == Some(p) <==> PriceIs(l.price, p) { PriceIsRead(l.price, p); }
    forall q ensures ParseQuantity(l.quantity) == Some(q) <==> QuantityIs(l.quantity, q) { QuantityIsRead(l.quantity, q); }
    assert ParsePrice(l.price).Some? ==> PriceIs(l.price, ParsePrice(l.price).value);
    assert ParseQuantity(l.quantity).Some? ==> QuantityIs(l.quantity, ParseQuantity(l.quantity).value);
  }

  /** One more entry at the end replaces what was said about its price, and nothing else. */
  lemma LastEntryCounts(ls: seq<PriceLevel>, p: int, price: int, q: int, before: int)
    requires ls != [] && PriceIs(ls[|ls| - 1].price, price) && QuantityIs(ls[|ls| - 1].quantity, q)
    requires PriceIs(ls[|ls| - 1].price, p) <==> p == price
    requires SideSays(ls[..|ls| - 1], p, before)
    ensures SideSays(ls, p, if p == price then q else before)
  {
    hide PriceIs, QuantityIs;
    var n := |ls| - 1;
    var init := ls[..n];
    assert forall i :: 0 <= i < n ==> init[i] == ls[i];
    if p == price {
      assert SetsLast(ls, n, p, q);
    } else if Named(init, p) {
      var i :| SetsLast(init, i, p, before);
      assert SetsLast(ls, i, p, before);
    }
  }

  /** A snapshot replaces the whole book, or changes nothing if any entry cannot be read. */
  lemma SnapshotIsApplied(s: OrderBookSnapshot)
    ensures Snapshotted(s).Applied? <==> Readable(s.yes) && Readable(s.no)
    ensures !Snapshotted(s).OutOfSync?
    ensures Snapshotted(s).Applied? ==>
      var b := Snapshotted(s).book;
      && b.ticker == s.marketTicker && WellShapedBook(b)
      && forall p :: 0 <= p <= 1000 ==> SideSays(s.yes, p, b.yes[p]) && SideSays(s.no, p, b.no[p])
  {
    hide SideSays, Readable, SideOf;
    SideIsExact(s.yes);
    SideIsExact(s.no);
  }

  // ---- what was sent on a subscription

  /** The quantity at a price after these messages: what the last snapshot said, and every delta since added. */
  ghost predicate LevelIs(ps: seq<Payload>, side: string, p: int, q: int) {
    if ps == [] then q == 0
    else
      var before := ps[..|ps| - 1];
      match ps[|ps| - 1]
      case Snapshot(s) => SideSays(if side == "yes" then s.yes else s.no, p, q)
      case Delta(d) =>
        if d.side == side && PriceIs(d.priceDollars, p)
        then exists dq :: QuantityIs(d.deltaFp, dq) && LevelIs(before, side, p, q - dq)
        else LevelIs(before, side, p, q)
      case _ => LevelIs(before, side, p, q)
  }

  /** Every level of the exchange's book is what was sent about it. */
  lemma {:induction false} BookHoldsWhatWasSent(ps: seq<Payload>, side: string, p: int)
    requires ExchangeBook(ps).Some? && (side == "yes" || side == "no") && 1 <= p <= 999
    ensures LevelIs(ps, side, p, Side(ExchangeBook(ps).value, side)[p])
    decreases |ps|
  {
    hide PriceIs, QuantityIs, Snapshotted, Updated, SideSays;
    assert "yes" != "no" by { assert |"yes"| != |"no"|; }
    var n := |ps| - 1;
    match ps[n]
    case Snapshot(s) => SnapshotIsApplied(s);
    case Delta(d) =>
      BookHoldsWhatWasSent(ps[..n], side, p);
      DeltaAddsToLevel(ExchangeBook(ps[..n]).value, d, side, p);
    case _ => BookHoldsWhatWasSent(ps[..n], side, p);
  }

  lemma DeltaAddsToLevel(b: Book, d: OrderBookDelta, side: string, p: int)
    requires WellShapedBook(b) && Updated(b, d).Applied? && (side == "yes" || side == "no") && 1 <= p <= 999
    ensures var (old_, new_) := (Side(b, side)[p], Side(Updated(b, d).book, side)[p]);
      if d.side == side && PriceIs(d.priceDollars, p) then QuantityIs(d.deltaFp, new_ - old_) else new_ == old_
  {
    hide PriceIs, QuantityIs, Updated;
    assert "yes" != "no" by { assert |"yes"| != |"no"|; }
    DeltaIsApplied(b, d);
    var price, q :| IsChange(d, price, q);
    PriceIsRead(d.priceDollars, p);
    PriceIsRead(d.priceDollars, price);
  }

  // ---- the top of the book

  /** The best bid is the highest populated YES price. */
  lemma BestBid(b: Book, p: int)
    requires WellShapedBook(b)
    ensures BidOf(b) == Some(p) <==> 1 <= p <= 999 && b.yes[p] > 0 && forall k :: p < k <= 999 ==> b.yes[k] <= 0
  {
    hide Best;
    if 1 <= p <= 999 { BestIsTheMaximum(b.yes, 999, p); }
  }

  /** A NO quantity at a price offers YES at its complement to 1 dollar. */
  function OfferedAt(b: Book, p: int): int
    requires |b.no| == 1001 && 0 <= p <= 1000
  {
    b.no[1000 - p]
  }

  /** The best ask is the lowest price at which YES is offered. */
  lemma BestAsk(b: Book, p: int)
    requires WellShapedBook(b)
    ensures AskOf(b) == Some(p) <==> 1 <= p <= 999 && OfferedAt(b, p) > 0 && forall k :: 1 <= k < p ==> OfferedAt(b, k) <= 0
  {
    hide Best;
    if 1 <= p <= 999 {
      BestIsTheMaximum(b.no, 999, 1000 - p);
      forall k | 1000 - p < k <= 999 ensures b.no[k] == OfferedAt(b, 1000 - k) {}
    }
  }

  /** Before the first snapshot nothing is quoted, so nothing can be traded. */
  lemma EmptyBookQuotesNothing()
    ensures EMPTY_BOOK.ticker == "" && BidOf(EMPTY_BOOK).None? && AskOf(EMPTY_BOOK).None?
  {
    hide Best;
    BestIsTheMaximum(EMPTY_BOOK.yes, 999, 0);
    BestIsTheMaximum(EMPTY_BOOK.no, 999, 0);
  }

  // ---- what the session does with a message

  /** The verdict on every message. A delta out of sequence or below zero ends the session; a book message that
      cannot be read stops the bot; every other book message is traded on. */
  lemma VerdictIsExact(f: Feed, m: Message)
    requires WellShapedBook(f.book)
    ensures var verdict := OnMessage(f, m).1;
      match m.payload
      case Snapshot(s) => verdict == (if Readable(s.yes) && Readable(s.no) then Trade else Stop)
      case Delta(d) =>
        if m.seqNo != 0 && !(f.sid == Some(m.sid) && m.seqNo == (f.seqNo + 1) % 4294967296) then verdict == SessionOver
        else
          && (verdict == Stop <==> !exists p, q :: IsChange(d, p, q))
          && (verdict == SessionOver <==> exists p, q :: IsChange(d, p, q) && Side(f.book, d.side)[p] + q < 0)
          && (verdict == Trade <==> exists p, q :: IsChange(d, p, q) && Side(f.book, d.side)[p] + q >= 0)
      case _ => verdict == Ignore
  {
    hide Snapshotted, Updated, Readable, PriceIs, QuantityIs;
    match m.payload
    case Snapshot(s) => SnapshotIsApplied(s);
    case Delta(d) =>
      DeltaIsApplied(f.book, d);
      ChangeIsUnique(d);
    case _ =>
  }

  lemma ChangeIsUnique(d: OrderBookDelta)
    ensures forall p, q, p', q' :: IsChange(d, p, q) && IsChange(d, p', q') ==> p == p' && q == q'
  {
    hide PriceIs, QuantityIs, ParsePrice, ParseQuantity;
    forall p, q | IsChange(d, p, q) ensures ParsePrice(d.priceDollars) == Some(p) && ParseQuantity(d.deltaFp) == Some(q) {
      PriceIsRead(d.priceDollars, p);
      QuantityIsRead(d.deltaFp, q);
    }
  }
}
