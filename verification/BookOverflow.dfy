/** The sum that the source forms without a guard, and exactly when it can leave 64 bits. */
module BookOverflow {
  import opened Text
  import opened KalshiMessages
  import opened MarketBook
  import FixedPoint
  import OrderPath

  function TwoDigits(n: nat): string
    requires n < 100
  {
    [DigitChar(n / 10), DigitChar(n % 10)]
  }

  /** A quantity of hundredths as the exchange writes it. */
  function QuantityText(n: nat): string { Decimal(n / 100) + "." + (TwoDigits(n % 100) + "") }

  lemma TwoDigitsValue(n: nat)
    requires n < 100
    ensures Numeral(TwoDigits(n), 10) && Value(TwoDigits(n), 10) == n
  {
    hide Value;
    OrderPath.ValueOfNone();
    ValueSnoc([], DigitChar(n / 10), 10);
    ValueSnoc([DigitChar(n / 10)], DigitChar(n % 10), 10);
    assert [] + [DigitChar(n / 10)] == [DigitChar(n / 10)];
    assert [DigitChar(n / 10)] + [DigitChar(n % 10)] == TwoDigits(n);
  }

  lemma QuantityDigits(n: nat)
    ensures var whole, cents := Decimal(n / 100), TwoDigits(n % 100);
      |cents| == 2 && Numeral(cents, 10) && Numeral(whole + cents, 10) && Value(whole + cents, 10) == n
  {
    assert |TwoDigits(n % 100)| == 2;
    TwoDigitsValue(n % 100);
    hide Value, Decimal, TwoDigits;
    ValueConcat(Decimal(n / 100), TwoDigits(n % 100), 10);
    assert Pow(10, 2) == 100;
  }

  lemma QuantityReadsBack(n: nat)
    requires n <= I64_MAX
    ensures ParseQuantity(QuantityText(n)) == Some(n)
  {
    hide Value, Decimal, TwoDigits, Numeral, FixedPoint.ParsedFixed;
    QuantityDigits(n);
    OrderPath.DecimalReadsBack(Decimal(n / 100), TwoDigits(n % 100), "", 2);
  }

  function Sized(p: int, n: nat): Change
    requires 1 <= p < MAX_PRICE
  {
    TakeSnapshot(OrderBookSnapshot("", "", [PriceLevel(OrderPath.PriceToDollars(p), QuantityText(n))], []))
  }

  function Raised(p: int, n: nat): Change
    requires 1 <= p < MAX_PRICE
  {
    TakeDelta(OrderBookDelta("", "", OrderPath.PriceToDollars(p), QuantityText(n), "yes", "", 0))
  }

  lemma SizedSide(p: int, n: nat)
    requires 1 <= p < MAX_PRICE && n <= I64_MAX
    ensures SideOf([PriceLevel(OrderPath.PriceToDollars(p), QuantityText(n))]) == Some(NoLevels()[p := n])
    ensures SideOf([]) == Some(NoLevels())
  {
    hide OrderPath.PriceToDollars, QuantityText, ParseQuantity, ParsePrice, NoLevels;
    PriceIsParsed(p);
    QuantityReadsBack(n);
    var ls := [PriceLevel(OrderPath.PriceToDollars(p), QuantityText(n))];
    assert ls[..0] == [];
  }

  lemma RaisedBook(b: Book, p: int, n: nat)
    requires WellShapedBook(b) && 1 <= p < MAX_PRICE && n <= I64_MAX && b.yes[p] >= 0
    ensures Changed(b, Raised(p, n)) == b.(yes := b.yes[p := b.yes[p] + n])
  {
    hide OrderPath.PriceToDollars, QuantityText, ParseQuantity, ParsePrice;
    PriceIsParsed(p);
    QuantityReadsBack(n);
  }

  lemma PriceIsParsed(p: int)
    requires 1 <= p < MAX_PRICE
    ensures ParsePrice(OrderPath.PriceToDollars(p)) == Some(p)
  {
    hide OrderPath.PriceToDollars;
    OrderPath.PriceReadsBack(p);
  }

  /** A snapshot with a level of `a` and a delta of `b` leave a level of `a + b`, for any two quantities that
      can be read. */
  lemma QuantitiesAddUp(p: int, a: nat, b: nat)
    requires 1 <= p < MAX_PRICE && a <= I64_MAX && b <= I64_MAX
    ensures AfterChanges([Sized(p, a), Raised(p, b)]).yes[p] == a + b
  {
    SizedSide(p, a);
    var cs := [Sized(p, a), Raised(p, b)];
    assert cs[..1] == [cs[0]] && cs[..1][..0] == [];
    hide NoLevels, QuantityText, OrderPath.PriceToDollars, Raised, SideOf;
    assert AfterChanges(cs[..1]).yes == NoLevels()[p := a];
    RaisedBook(AfterChanges(cs[..1]), p, b);
  }

  /** So two messages take a level out of 64 bits. */
  lemma LevelLeavesRange(p: int) returns (cs: seq<Change>)
    requires 1 <= p < MAX_PRICE
    ensures |cs| == 2 && AfterChanges(cs).yes[p] > I64_MAX
  {
    cs := [Sized(p, I64_MAX), Raised(p, 1)];
    QuantitiesAddUp(p, I64_MAX, 1);
  }

  // ---- the unguarded sum

  predicate FitsInt64(n: int) { -I64_MAX - 1 <= n <= I64_MAX }

  /** The level of a side and price that a delta names. */
  function LevelAt(b: Book, side: string, price: int): int
    requires WellShapedBook(b) && 1 <= price < MAX_PRICE
  {
    if side == "yes" then b.yes[price] else b.no[price]
  }

  /** What a well-formed delta makes of its level before the clamp. */
  function RawSum(b: Book, c: Change): Option<int>
    requires WellShapedBook(b)
  {
    match c
    case TakeSnapshot(_) => None
    case TakeDelta(d) =>
      match (ParsePrice(d.priceDollars), ParseQuantity(d.deltaFp))
      case (Some(price), Some(quantity)) =>
        if d.side == "yes" || d.side == "no" then Some(LevelAt(b, d.side, price) + quantity) else None
      case _ => None
  }

  /** The sum exists for exactly the deltas that are not malformed; a negative one is clamped to zero and reported,
      and any other becomes the level. */
  lemma SumBecomesTheLevel(b: Book, d: OrderBookDelta)
    requires WellShapedBook(b)
    ensures RawSum(b, TakeDelta(d)).None? <==> Updated(b, d).Malformed?
    ensures RawSum(b, TakeDelta(d)).Some? ==>
      var n, price := RawSum(b, TakeDelta(d)).value, ParsePrice(d.priceDollars).value;
      var r := Updated(b, d);
      && (r.OutOfSync? <==> n < 0)
      && LevelAt(r.book, d.side, price) == if n < 0 then 0 else n
  {
    hide ParsePrice, ParseQuantity;
    assert "yes" != "no";
  }

  /** Every sum formed in the run fits. */
  ghost predicate RunFits(cs: seq<Change>) {
    forall k :: 0 <= k < |cs| ==>
      RawSum(AfterChanges(cs[..k]), cs[k]).Some? ==> FitsInt64(RawSum(AfterChanges(cs[..k]), cs[k]).value)
  }

  /** So it does in every run of at most `n` changes of size at most `q`. */
  ghost predicate AlwaysFits(n: nat, q: int) {
    forall cs: seq<Change> :: |cs| <= n && (forall i :: 0 <= i < |cs| ==> Bounded(cs[i], q)) ==> RunFits(cs)
  }

  lemma {:induction false} SumIsWithin(b: Book, c: Change, q: int, lo: int, hi: int)
    requires WellShapedBook(b) && Bounded(c, q) && Within(b.yes, lo, hi) && Within(b.no, lo, hi)
    ensures RawSum(b, c).Some? ==> lo - q <= RawSum(b, c).value <= hi + q
  {
    hide ParsePrice, ParseQuantity;
  }

  lemma EmptyIsWithin()
    ensures Within(AfterChanges([]).yes, 0, 0) && Within(AfterChanges([]).no, 0, 0)
  {}

  lemma {:induction false} SumFits(cs: seq<Change>, c: Change, q: int, n: nat)
    requires 0 <= q <= I64_MAX && |cs| < n && n * q <= I64_MAX
    requires Bounded(c, q) && forall i :: 0 <= i < |cs| ==> Bounded(cs[i], q)
    ensures RawSum(AfterChanges(cs), c).Some? ==> FitsInt64(RawSum(AfterChanges(cs), c).value)
  {
    hide RawSum, AfterChanges, Bounded, Within, FitsInt64;
    if cs == [] {
      EmptyIsWithin();
      SumFitsHere(AfterChanges(cs), c, q, 0, 0);
    } else {
      LevelsStayInRange(cs, q);
      var hi := |cs| * q;
      RangeFits(|cs|, n, q);
      SumFitsHere(AfterChanges(cs), c, q, -q, hi);
    }
  }

  lemma {:induction false} SumFitsHere(b: Book, c: Change, q: int, lo: int, hi: int)
    requires 0 <= q <= I64_MAX && WellShapedBook(b) && Bounded(c, q) && Within(b.yes, lo, hi) && Within(b.no, lo, hi)
    requires lo == hi == 0 || (FitsInt64(lo - q) && FitsInt64(hi + q))
    ensures RawSum(b, c).Some? ==> FitsInt64(RawSum(b, c).value)
  {
    SumIsWithin(b, c, q, lo, hi);
    hide RawSum, Bounded, Within;
  }

  lemma RangeFits(k: nat, n: nat, q: int)
    requires 1 <= k < n && q >= 0 && n * q <= I64_MAX
    ensures FitsInt64(-q - q) && FitsInt64(k * q + q)
  {
    OneStep(k, q);
    MulOrder(k + 1, n, q);
    MulOrder(2, k + 1, q);
  }

  /** The same delta, again and again. */
  function Repeated(p: int, q: nat, n: nat): (cs: seq<Change>)
    requires 1 <= p < MAX_PRICE
    ensures |cs| == n && forall i :: 0 <= i < n ==> cs[i] == Raised(p, q)
  {
    seq(n, _ => Raised(p, q))
  }

  lemma {:induction false} RepeatedAddsUp(p: int, q: nat, n: nat, k: nat)
    requires 1 <= p < MAX_PRICE && q <= I64_MAX && k <= n
    ensures AfterChanges(Repeated(p, q, n)[..k]).yes[p] == k * q
  {
    hide Raised, Repeated, Changed;
    if k == 0 {
      EmptyIsWithin();
    } else {
      var cs := Repeated(p, q, n);
      RepeatedAddsUp(p, q, n, k - 1);
      OneStep(k - 1, q);
      assert cs[..k][..k - 1] == cs[..k - 1] && cs[..k][k - 1] == Raised(p, q);
      RaisedBook(AfterChanges(cs[..k - 1]), p, q);
    }
  }

  lemma RaisedIsBounded(b: Book, p: int, q: nat)
    requires WellShapedBook(b) && 1 <= p < MAX_PRICE && q <= I64_MAX
    ensures Bounded(Raised(p, q), q) && RawSum(b, Raised(p, q)) == Some(b.yes[p] + q)
  {
    hide OrderPath.PriceToDollars, QuantityText, ParseQuantity, ParsePrice;
    PriceIsParsed(p);
    QuantityReadsBack(q);
  }

  /** Too many changes of that size, and some run forms a sum that does not fit. */
  lemma RepeatedOverflows(p: int, q: nat, n: nat) returns (cs: seq<Change>)
    requires 1 <= p < MAX_PRICE && q <= I64_MAX && n * q > I64_MAX
    ensures |cs| == n && (forall i :: 0 <= i < n ==> Bounded(cs[i], q)) && !RunFits(cs)
  {
    hide Raised, Repeated, RawSum, AfterChanges, Bounded;
    cs := Repeated(p, q, n);
    RaisedIsBounded(EMPTY_BOOK, p, q);
    var k := n - 1;
    RepeatedAddsUp(p, q, n, k);
    OneStep(k, q);
    RaisedIsBounded(AfterChanges(cs[..k]), p, q);
    assert RawSum(AfterChanges(cs[..k]), cs[k]) == Some(n * q);
  }

  /** Every sum of every run of at most `n` changes of size at most `q` fits in 64 bits if and only if `n * q`
      does. */
  lemma SumsFitExactlyIfProductDoes(n: nat, q: nat)
    requires q <= I64_MAX
    ensures AlwaysFits(n, q) <==> n * q <= I64_MAX
  {
    hide RawSum, AfterChanges, Bounded, FitsInt64;
    if n * q <= I64_MAX {
      forall cs: seq<Change> | |cs| <= n && (forall i :: 0 <= i < |cs| ==> Bounded(cs[i], q)) ensures RunFits(cs) {
        forall k | 0 <= k < |cs|
          ensures RawSum(AfterChanges(cs[..k]), cs[k]).Some? ==> FitsInt64(RawSum(AfterChanges(cs[..k]), cs[k]).value)
        {
          SumFits(cs[..k], cs[k], q, n);
        }
      }
    } else {
      var cs := RepeatedOverflows(500, q, n);
    }
  }
}
