/** The order book: one array of levels per side, indexed by price, with its best price kept up to date. */
module MarketBook {
  import opened Text
  import opened KalshiMessages
  import FixedPoint

  const PRICE_DECIMALS := 3
  const MAX_PRICE := 1000

  // ---- the book as a value

  type Levels = seq<int>

  datatype Book = Book(ticker: string, yes: Levels, no: Levels)

  /** Malformed input leaves the book alone; a level driven below zero is clamped and reported. */
  datatype Applied = Applied(book: Book) | OutOfSync(book: Book) | Malformed

  function NoLevels(): (levels: Levels)
    ensures |levels| == MAX_PRICE + 1 && forall p :: 0 <= p <= MAX_PRICE ==> levels[p] == 0
  {
    seq(MAX_PRICE + 1, _ => 0)
  }

  const EMPTY_BOOK := Book("", NoLevels(), NoLevels())

  /** A price on the book's grid, strictly between $0 and $1. */
  function ParsePrice(t: string): (r: Option<int>)
    ensures r.Some? ==> 1 <= r.value < MAX_PRICE
  {
    var price := FixedPoint.ParsedFixed(t, PRICE_DECIMALS);
    if price.Some? && 1 <= price.value < MAX_PRICE then price else None
  }

  function ParseQuantity(t: string): Option<int> { FixedPoint.ParsedFixed(t, 2) }

  predicate WellFormedLevel(l: PriceLevel) { ParsePrice(l.price).Some? && ParseQuantity(l.quantity).Some? }

  /** The levels of one side of a snapshot. */
  function SideOf(ls: seq<PriceLevel>): (r: Option<Levels>)
    ensures r.Some? ==> WellShaped(r.value)
  {
    if ls == [] then Some(NoLevels())
    else
      var l := ls[|ls| - 1];
      match (SideOf(ls[..|ls| - 1]), ParsePrice(l.price), ParseQuantity(l.quantity))
      case (Some(levels), Some(price), Some(quantity)) => Some(levels[price := quantity])
      case _ => None
  }

  /** One slot per price; the prices 0 and 1000 are never used. */
  predicate WellShaped(levels: Levels) {
    |levels| == MAX_PRICE + 1 && levels[0] == 0 && levels[MAX_PRICE] == 0
  }

  ghost predicate WellShapedBook(b: Book) { WellShaped(b.yes) && WellShaped(b.no) }

  function Snapshotted(s: OrderBookSnapshot): Applied {
    match (SideOf(s.yes), SideOf(s.no))
    case (Some(yes), Some(no)) => Applied(Book(s.marketTicker, yes, no))
    case _ => Malformed
  }

  function Updated(b: Book, d: OrderBookDelta): (r: Applied)
    requires WellShapedBook(b)
    ensures !r.Malformed? ==> WellShapedBook(r.book)
  {
    match (ParsePrice(d.priceDollars), ParseQuantity(d.deltaFp))
    case (Some(price), Some(quantity)) =>
      if d.side == "yes" then
        var level := b.yes[price] + quantity;
        if level < 0 then OutOfSync(b.(yes := b.yes[price := 0])) else Applied(b.(yes := b.yes[price := level]))
      else if d.side == "no" then
        var level := b.no[price] + quantity;
        if level < 0 then OutOfSync(b.(no := b.no[price := 0])) else Applied(b.(no := b.no[price := level]))
      else Malformed
    case _ => Malformed
  }

  ghost predicate LastEntry(ls: seq<PriceLevel>, i: nat, price: int)
    requires i < |ls|
  {
    ParsePrice(ls[i].price) == Some(price) && forall j :: i < j < |ls| ==> ParsePrice(ls[j].price) != Some(price)
  }

  /** Each side of a snapshot is well formed entry by entry, and the last entry for a price counts. */
  lemma {:induction false} SideHoldsLastEntry(ls: seq<PriceLevel>, price: int)
    requires 0 <= price <= MAX_PRICE
    ensures SideOf(ls).Some? <==> forall i :: 0 <= i < |ls| ==> WellFormedLevel(ls[i])
    ensures SideOf(ls).Some? && (forall i :: 0 <= i < |ls| ==> ParsePrice(ls[i].price) != Some(price))
        ==> SideOf(ls).value[price] == 0
    ensures forall i :: 0 <= i < |ls| && SideOf(ls).Some? && LastEntry(ls, i, price)
                    ==> Some(SideOf(ls).value[price]) == ParseQuantity(ls[i].quantity)
  {
    hide ParsePrice, ParseQuantity;
    if ls != [] {
      var n := |ls| - 1;
      var init := ls[..n];
      SideHoldsLastEntry(init, price);
      assert forall i :: 0 <= i < n ==> init[i] == ls[i];
      assert forall i :: 0 <= i < n && LastEntry(ls, i, price) ==> LastEntry(init, i, price);
    }
  }

  // ---- the best price of a side

  /** Downward scan: the largest price at most `from` with a positive level, or 0. */
  function Best(levels: Levels, from: nat): (best: nat)
    requires from < |levels|
    ensures best <= from && (best > 0 ==> levels[best] > 0)
    ensures forall p :: best < p <= from ==> levels[p] <= 0
  {
    if from == 0 || levels[from] > 0 then from else Best(levels, from - 1)
  }

  function BestOf(levels: Levels): nat
    requires |levels| == MAX_PRICE + 1
  {
    Best(levels, MAX_PRICE - 1)
  }

  function BidOf(b: Book): Option<int>
    requires |b.yes| == MAX_PRICE + 1
  {
    if BestOf(b.yes) != 0 then Some(BestOf(b.yes)) else None
  }

  function AskOf(b: Book): Option<int>
    requires |b.no| == MAX_PRICE + 1
  {
    if BestOf(b.no) != 0 then Some(MAX_PRICE - BestOf(b.no)) else None
  }

  /** The scan finds the only price that is a maximum of the populated ones. */
  lemma BestIsTheMaximum(levels: Levels, from: nat, best: nat)
    requires best <= from < |levels|
    ensures Best(levels, from) == best <==>
      (best > 0 ==> levels[best] > 0) && forall p :: best < p <= from ==> levels[p] <= 0
  {
    var b := Best(levels, from);
    assert best < b ==> levels[b] > 0;
    assert b < best ==> levels[best] <= 0;
  }

  /** The incremental rule for one changed level agrees with a full scan. */
  lemma IncrementalBest(levels: Levels, price: nat, level: nat)
    requires WellShaped(levels) && 1 <= price < MAX_PRICE
    ensures var best := BestOf(levels);
      var levels' := levels[price := level];
      BestOf(levels') == if level > 0 && price > best then price
                         else if level == 0 && price == best then Best(levels', price - 1)
                         else best
  {
    var best := BestOf(levels);
    var levels' := levels[price := level];
    var best' := if level > 0 && price > best then price
                 else if level == 0 && price == best then Best(levels', price - 1)
                 else best;
    BestIsTheMaximum(levels', MAX_PRICE - 1, best');
  }

  // ---- whole runs of snapshots and deltas

  datatype Change = TakeSnapshot(snapshot: OrderBookSnapshot) | TakeDelta(delta: OrderBookDelta)

  /** Malformed changes leave the book alone. */
  function Changed(b: Book, c: Change): (b': Book)
    requires WellShapedBook(b)
    ensures WellShapedBook(b')
  {
    var r := match c case TakeSnapshot(s) => Snapshotted(s) case TakeDelta(d) => Updated(b, d);
    if r.Malformed? then b else r.book
  }

  function AfterChanges(cs: seq<Change>): (b: Book)
    ensures WellShapedBook(b)
  {
    if cs == [] then EMPTY_BOOK else Changed(AfterChanges(cs[..|cs| - 1]), cs[|cs| - 1])
  }

  ghost predicate Within(levels: Levels, lo: int, hi: int) { forall p :: 0 <= p < |levels| ==> lo <= levels[p] <= hi }

  predicate AtMost(t: string, q: int) { ParseQuantity(t).Some? ==> -q <= ParseQuantity(t).value <= q }

  /** No quantity of the change exceeds `q` in size. */
  ghost predicate Bounded(c: Change, q: int) {
    match c
    case TakeSnapshot(s) =>
      && (forall i :: 0 <= i < |s.yes| ==> AtMost(s.yes[i].quantity, q))
      && (forall i :: 0 <= i < |s.no| ==> AtMost(s.no[i].quantity, q))
    case TakeDelta(d) => AtMost(d.deltaFp, q)
  }

  lemma {:induction false} SideIsWithin(ls: seq<PriceLevel>, q: int)
    requires q >= 0 && forall i :: 0 <= i < |ls| ==> AtMost(ls[i].quantity, q)
    ensures SideOf(ls).Some? ==> Within(SideOf(ls).value, -q, q)
  {
    hide ParsePrice, ParseQuantity;
    if ls != [] { SideIsWithin(ls[..|ls| - 1], q); }
  }

  lemma ChangeIsWithin(b: Book, c: Change, q: int, hi: int)
    requires q >= 0 && hi >= 0 && WellShapedBook(b) && Bounded(c, q) && Within(b.yes, -q, hi) && Within(b.no, -q, hi)
    ensures Within(Changed(b, c).yes, -q, hi + q) && Within(Changed(b, c).no, -q, hi + q)
  {
    hide ParsePrice, ParseQuantity, SideOf;
    if c.TakeSnapshot? {
      SideIsWithin(c.snapshot.yes, q);
      SideIsWithin(c.snapshot.no, q);
    }
  }

  lemma OneStep(n: nat, q: int)
    requires q >= 0
    ensures n * q >= 0 && n * q + q == (n + 1) * q
  {}

  /** The levels after `n` changes of size at most `q` lie between `-q` and `n * q`. */
  lemma {:induction false} LevelsStayInRange(cs: seq<Change>, q: int)
    requires q >= 0 && forall i :: 0 <= i < |cs| ==> Bounded(cs[i], q)
    ensures Within(AfterChanges(cs).yes, -q, |cs| * q) && Within(AfterChanges(cs).no, -q, |cs| * q)
  {
    hide Changed, Bounded;
    if cs != [] {
      var n := |cs| - 1;
      LevelsStayInRange(cs[..n], q);
      OneStep(n, q);
      ChangeIsWithin(AfterChanges(cs[..n]), cs[n], q, n * q);
    }
  }

  // ---- the object

  datatype Outcome = Fine | Error(kind: BookErrorKind)
  datatype BookErrorKind = KindMalformed | KindOutOfSync

  method ScanBest(levels: array<int>, from: nat) returns (best: nat)
    requires from < levels.Length
    ensures best == Best(levels[..], from)
  {
    best := from;
    while best > 0
      invariant best <= from && Best(levels[..], from) == Best(levels[..], best)
    {
      if levels[best] > 0 { return; }
      best := best - 1;
    }
  }

  class MarketState {
    var ticker: string
    var yes: array<int>
    var no: array<int>
    var bestYes: int
    var bestNo: int

    /** The cached bests are the true maxima, whatever was applied before. */
    ghost predicate Valid()
      reads this, yes, no
    {
      && yes != no
      && WellShaped(yes[..]) && WellShaped(no[..])
      && bestYes == BestOf(yes[..]) && bestNo == BestOf(no[..])
    }

    ghost function Contents(): Book
      reads this, yes, no
    {
      Book(ticker, yes[..], no[..])
    }

    constructor ()
      ensures Valid() && fresh(yes) && fresh(no) && Contents() == EMPTY_BOOK
    {
      ticker := "";
      yes := new int[MAX_PRICE + 1](_ => 0);
      no := new int[MAX_PRICE + 1](_ => 0);
      bestYes, bestNo := 0, 0;
      new;
      assert yes[..] == NoLevels() && no[..] == NoLevels();
      BestIsTheMaximum(NoLevels(), MAX_PRICE - 1, 0);
    }

    static method FillSide(ls: seq<PriceLevel>, levels: array<int>) returns (ok: bool)
      requires levels.Length == MAX_PRICE + 1 && levels[..] == NoLevels()
      modifies levels
      ensures ok == SideOf(ls).Some?
      ensures ok ==> levels[..] == SideOf(ls).value
    {
      for i := 0 to |ls|
        invariant SideOf(ls[..i]) == Some(levels[..])
      {
        assert ls[..i + 1][..i] == ls[..i];
        var price := ParsePrice(ls[i].price);
        var quantity := ParseQuantity(ls[i].quantity);
        if price.None? || quantity.None? {
          assert !WellFormedLevel(ls[i]);
          SideHoldsLastEntry(ls, 0);
          return false;
        }
        levels[price.value] := quantity.value;
      }
      assert ls[..|ls|] == ls;
      return true;
    }

    static method NewSide() returns (levels: array<int>)
      ensures fresh(levels) && levels.Length == MAX_PRICE + 1 && levels[..] == NoLevels()
    {
      levels := new int[MAX_PRICE + 1](_ => 0);
    }

    method ApplySnapshot(s: OrderBookSnapshot) returns (r: Outcome)
      requires Valid()
      modifies this
      ensures Valid()
      ensures match Snapshotted(s)
              case Applied(book) => r == Fine && Contents() == book && fresh(yes) && fresh(no)
              case _ => r == Error(KindMalformed) && unchanged(this) && Contents() == old(Contents())
    {
      hide SideOf, Best;
      var ys := NewSide();
      var ok := FillSide(s.yes, ys);
      if !ok { return Error(KindMalformed); }
      var ns := NewSide();
      ok := FillSide(s.no, ns);
      if !ok { return Error(KindMalformed); }
      ticker, yes, no := s.marketTicker, ys, ns;
      bestYes := ScanBest(yes, MAX_PRICE - 1);
      bestNo := ScanBest(no, MAX_PRICE - 1);
      return Fine;
    }

    /** Adds to one level, clamps it at zero, and keeps that side's best price. */
    static method AddToLevel(levels: array<int>, best: int, price: int, quantity: int) returns (best': int, clamped: bool)
      requires WellShaped(levels[..]) && 1 <= price < MAX_PRICE && best == BestOf(levels[..])
      modifies levels
      ensures clamped == (old(levels[price]) + quantity < 0)
      ensures levels[..] == old(levels[..])[price := if clamped then 0 else old(levels[price]) + quantity]
      ensures best' == BestOf(levels[..])
    {
      levels[price] := levels[price] + quantity;
      clamped := levels[price] < 0;
      if clamped { levels[price] := 0; }
      IncrementalBest(old(levels[..]), price, levels[price]);
      best' := best;
      if levels[price] > 0 && price > best {
        best' := price;
      } else if levels[price] == 0 && price == best {
        best' := ScanBest(levels, price - 1);
      }
    }

    method ApplyDelta(d: OrderBookDelta) returns (r: Outcome)
      requires Valid()
      modifies this, yes, no
      ensures Valid() && yes == old(yes) && no == old(no)
      ensures match Updated(old(Contents()), d)
              case Applied(book) => r == Fine && Contents() == book
              case OutOfSync(book) => r == Error(KindOutOfSync) && Contents() == book
              case Malformed => r == Error(KindMalformed) && unchanged(this) && Contents() == old(Contents())
    {
      hide ParsePrice, ParseQuantity, BestOf, Best;
      var isYes := d.side == "yes";
      if !isYes && d.side != "no" { return Error(KindMalformed); }
      var price := ParsePrice(d.priceDollars);
      if price.None? { return Error(KindMalformed); }
      var quantity := ParseQuantity(d.deltaFp);
      if quantity.None? { return Error(KindMalformed); }

      var clamped: bool;
      if isYes {
        bestYes, clamped := AddToLevel(yes, bestYes, price.value, quantity.value);
      } else {
        bestNo, clamped := AddToLevel(no, bestNo, price.value, quantity.value);
      }
      return if clamped then Error(KindOutOfSync) else Fine;
    }

    /** The highest populated YES price. */
    function BestYesBid(): (r: Option<int>)
      requires Valid()
      reads this, yes, no
      ensures r == BidOf(Contents())
      ensures r.None? <==> forall p :: 0 <= p <= MAX_PRICE ==> yes[p] <= 0
      ensures r.Some? ==> 1 <= r.value < MAX_PRICE && yes[r.value] > 0 && forall p :: r.value < p <= MAX_PRICE ==> yes[p] <= 0
    {
      if bestYes != 0 then Some(bestYes) else None
    }

    /** A NO bid at p is a YES ask at 1000 - p, so the best NO bid is the lowest ask. */
    function BestYesAsk(): (r: Option<int>)
      requires Valid()
      reads this, yes, no
      ensures r == AskOf(Contents())
      ensures r.None? <==> forall p :: 0 <= p <= MAX_PRICE ==> no[p] <= 0
      ensures r.Some? ==> 1 <= r.value < MAX_PRICE && no[MAX_PRICE - r.value] > 0
      ensures r.Some? ==> forall p :: 0 <= p <= MAX_PRICE && no[p] > 0 ==> r.value <= MAX_PRICE - p
    {
      if bestNo != 0 then Some(MAX_PRICE - bestNo) else None
    }
  }
}
