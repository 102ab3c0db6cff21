/** Exact decimal parsing into an integer scaled by a power of ten. */
module FixedPoint {
  import opened Text

  // ---- what a decimal text denotes

  /** Index of the first point, or the length. */
  function Point(b: string): (k: nat)
    ensures k <= |b| && (k < |b| ==> b[k] == '.')
    ensures forall i :: 0 <= i < k ==> b[i] != '.'
  {
    if b == [] || b[0] == '.' then 0 else 1 + Point(b[1..])
  }

  function Whole(b: string): string { b[..Point(b)] }

  function Fraction(b: string): string { if Point(b) < |b| then b[Point(b) + 1..] else [] }

  /** Digits with at most one point among or around them, and at least one digit. */
  predicate IsDecimal(b: string) { Numeral(Whole(b), 10) && Numeral(Fraction(b), 10) && |Whole(b)| + |Fraction(b)| > 0 }

  predicate Negative(t: string) { t != [] && t[0] == '-' }

  function Body(t: string): string { if Negative(t) then t[1..] else t }

  /** `t` is a decimal whose value times `10^scale` is exactly the integer `n`. */
  predicate Denotes(t: string, scale: nat, n: int) {
    var b := Body(t);
    && IsDecimal(b)
    && var m := if Negative(t) then -n else n;
       var digits := Whole(b) + Fraction(b);
       m >= 0 && Numeral(digits, 10) && Value(digits, 10) * Pow(10, scale) == m * Pow(10, |Fraction(b)|)
  }

  // ---- the result in closed form

  /** The digits the parser keeps: the whole part and at most `scale` digits after the point. */
  function Kept(b: string, scale: nat): string { Whole(b) + Fraction(b)[..Min(|Fraction(b)|, scale)] }

  predicate AllZero(t: string) { forall i :: 0 <= i < |t| ==> t[i] == '0' }

  function Scaled(b: string, scale: nat): (m: nat)
    requires IsDecimal(b)
  {
    var f := Min(|Fraction(b)|, scale);
    KeptIsNumeral(b, scale);
    Value(Kept(b, scale), 10) * Pow(10, scale - f)
  }

  lemma KeptIsNumeral(b: string, scale: nat)
    ensures IsDecimal(b) ==> Numeral(Kept(b, scale), 10)
  {}

  lemma ScaledIsProduct(b: string, scale: nat)
    requires IsDecimal(b)
    ensures Numeral(Kept(b, scale), 10)
    ensures Scaled(b, scale) == Value(Kept(b, scale), 10) * Pow(10, scale - Min(|Fraction(b)|, scale))
  {}

  function Magnitude(b: string, scale: nat): Option<int> {
    if IsDecimal(b) && AllZero(Fraction(b)[Min(|Fraction(b)|, scale)..]) && Scaled(b, scale) <= I64_MAX
    then Some(Scaled(b, scale)) else None
  }

  function ParsedFixed(t: string, scale: nat): Option<int> {
    match Magnitude(Body(t), scale)
    case None => None
    case Some(m) => Some(if Negative(t) then -m else m)
  }

  // ---- prefixes of a body, as the loop sees them

  lemma PrefixParts(b: string, k: nat)
    requires k <= |b|
    ensures var p := b[..k];
      && Point(p) == Min(k, Point(b))
      && Whole(p) == Whole(b)[..Point(p)]
      && |Fraction(p)| <= |Fraction(b)| && Fraction(p) == Fraction(b)[..|Fraction(p)|]
  {
    var p := b[..k];
    assert Point(p) < k ==> b[Point(p)] == p[Point(p)];
    assert Point(b) < k ==> p[Point(b)] == b[Point(b)];
    assert Whole(p) == Whole(b)[..Point(p)];
    assert Fraction(p) == Fraction(b)[..|Fraction(p)|];
  }

  lemma KeptPrefix(b: string, k: nat, scale: nat)
    requires k <= |b|
    ensures Kept(b[..k], scale) <= Kept(b, scale)
  {
    PrefixParts(b, k);
    var p := b[..k];
    if k <= Point(b) {
      assert Kept(p, scale) == Whole(b)[..k];
    } else {
      var f := Min(|Fraction(p)|, scale);
      assert Whole(p) == Whole(b);
      assert Fraction(p)[..f] == Fraction(b)[..f];
    }
  }

  lemma {:induction false} LeadingDigits(a: string, t: string)
    requires a <= t && Numeral(t, 10)
    ensures Numeral(a, 10) && Value(a, 10) <= Value(t, 10)
  {
    assert t == a + t[|a|..];
    ValueConcat(a, t[|a|..], 10);
    PowPositive(10, |t| - |a|);
    MulGrows(Value(a, 10), Pow(10, |t| - |a|));
  }

  lemma MulGrows(x: nat, y: nat)
    requires y > 0
    ensures x <= x * y
  {}

  /** A prefix whose kept digits exceed the limit dooms the whole text. */
  lemma OverflowIsFinal(b: string, k: nat, scale: nat)
    requires k <= |b| && Numeral(Kept(b[..k], scale), 10) && Value(Kept(b[..k], scale), 10) > I64_MAX
    ensures Magnitude(b, scale).None?
  {
    if IsDecimal(b) {
      ScaledIsProduct(b, scale);
      hide Point, Value, Kept, Pow, Scaled, Fraction, Whole, AllZero;
      KeptIsNumeral(b, scale);
      KeptPrefix(b, k, scale);
      LeadingDigits(Kept(b[..k], scale), Kept(b, scale));
      var f := Min(|Fraction(b)|, scale);
      PowPositive(10, scale - f);
      MulGrows(Value(Kept(b, scale), 10), Pow(10, scale - f));
    }
  }

  /** One more digit, before the point, kept after it, or beyond the scale. */
  lemma DigitStepOfPrefix(b: string, k: nat, scale: nat)
    requires k < |b| && IsDigit(b[k])
    ensures var p, q := b[..k], b[..k + 1];
      && (Point(p) == k ==> Whole(q) == Whole(p) + [b[k]] && Fraction(q) == [] == Fraction(p))
      && (Point(p) < k ==> Whole(q) == Whole(p) && Fraction(q) == Fraction(p) + [b[k]])
      && (Point(p) == k || |Fraction(p)| < scale ==> Kept(q, scale) == Kept(p, scale) + [b[k]])
      && (Point(p) < k && |Fraction(p)| >= scale ==> Kept(q, scale) == Kept(p, scale))
      && Point(q) == if Point(p) < k then Point(p) else k + 1
  {
    var p, q := b[..k], b[..k + 1];
    assert q == p + [b[k]];
    PointOfSnoc(p, b[k]);
    if Point(p) < k && |Fraction(p)| < scale {
      assert Whole(p) + (Fraction(p) + [b[k]]) == Whole(p) + Fraction(p) + [b[k]];
    }
  }

  lemma {:induction false} PointOfSnoc(p: string, c: char)
    requires c != '.'
    ensures Point(p + [c]) == if Point(p) < |p| then Point(p) else |p| + 1
    ensures Point(p) < |p| ==> Whole(p + [c]) == Whole(p) && Fraction(p + [c]) == Fraction(p) + [c]
    ensures Point(p) == |p| ==> Whole(p + [c]) == Whole(p) + [c] && Fraction(p + [c]) == []
  {
    hide Point;
    if Point(p) < |p| {
      FirstPoint(p + [c], Point(p));
      SnocSlices(p, c, Point(p));
      SnocSlices(p, c, Point(p) + 1);
    } else {
      FirstPoint(p + [c], |p| + 1);
      assert (p + [c])[..|p| + 1] == p + [c];
      assert p[..|p|] == p;
    }
  }

  lemma {:induction false} SnocSlices(p: string, c: char, k: nat)
    requires k <= |p|
    ensures (p + [c])[..k] == p[..k]
    ensures (p + [c])[k..] == p[k..] + [c]
  {}

  lemma {:induction false} FirstPoint(b: string, k: nat)
    requires k <= |b| && (k < |b| ==> b[k] == '.') && forall i :: 0 <= i < k ==> b[i] != '.'
    ensures Point(b) == k
  {
    hide Point;
  }

  lemma PointStepOfPrefix(b: string, k: nat, scale: nat)
    requires k < |b| && b[k] == '.' && Point(b[..k]) == k
    ensures var p, q := b[..k], b[..k + 1];
      Point(q) == k && Whole(q) == Whole(p) && Fraction(q) == [] == Fraction(p) && Kept(q, scale) == Kept(p, scale)
  {
    PrefixParts(b, k);
    PrefixParts(b, k + 1);
    assert b[..k + 1] == b[..k] + ['.'];
  }

  /** A character that is neither a digit nor a first point. */
  lemma BadCharacterIsFinal(b: string, k: nat)
    requires k < |b| && !IsDigit(b[k]) && !(b[k] == '.' && Point(b[..k]) == k)
    ensures !IsDecimal(b)
  {
    PrefixParts(b, k);
    if k < Point(b) {
      assert Whole(b)[k] == b[k];
    } else if k > Point(b) {
      assert Fraction(b)[k - Point(b) - 1] == b[k];
    }
  }

  lemma NonzeroBeyondIsFinal(b: string, k: nat, scale: nat)
    requires k < |b| && b[k] != '0' && Point(b[..k]) < k && |Fraction(b[..k])| >= scale
    ensures Magnitude(b, scale).None?
  {
    PrefixParts(b, k);
    var f := Fraction(b);
    assert f[k - Point(b) - 1] == b[k];
    assert f[scale..][k - Point(b) - 1 - scale] == b[k];
  }

  // ---- the parser

  /** What the loop has read of the body so far. */
  ghost predicate Read(p: string, scale: nat, value: int, digits: int, fracDigits: int, seenPoint: bool) {
    && Numeral(Whole(p), 10) && Numeral(Fraction(p), 10)
    && seenPoint == (Point(p) < |p|)
    && digits == |Whole(p)| + |Fraction(p)|
    && fracDigits == Min(|Fraction(p)|, scale)
    && AllZero(Fraction(p)[fracDigits..])
    && Numeral(Kept(p, scale), 10) && value == Value(Kept(p, scale), 10)
  }

  /** The character loop. `None` where the source returns `std::nullopt` from inside it. Every value of
      `value` fits in a signed 64-bit integer. */
  method ReadBody(b: string, scale: nat) returns (r: Option<(int, int, int)>)
    ensures r.None? ==> Magnitude(b, scale).None?
    ensures r.Some? ==> var (value, digits, fracDigits) := r.value;
      0 <= value <= I64_MAX && Read(b, scale, value, digits, fracDigits, Point(b) < |b|)
  {
    var value, digits, fracDigits, seenPoint := 0, 0, 0, false;
    hide Value, Kept, AllZero, Whole, Fraction, Numeral;
    ReadNothing(scale);
    for i := 0 to |b|
      invariant 0 <= value <= I64_MAX
      invariant Read(b[..i], scale, value, digits, fracDigits, seenPoint)
    {
      hide Read;
      var c := b[i];
      if c == '.' {
        ReadPoint(b, i, scale, value, digits, fracDigits, seenPoint);
        if seenPoint { return None; }
        seenPoint := true;
        continue;
      }
      ReadDigit(b, i, scale, value, digits, fracDigits, seenPoint);
      if !IsDigit(c) { return None; }
      digits := digits + 1;
      if seenPoint && fracDigits == scale {
        if c != '0' { return None; }
        continue;
      }
      var digit := DigitOf(c);
      if value > (I64_MAX - digit) / 10 {
        ReadTooMuch(b, i + 1, scale, value * 10 + digit, digits, fracDigits + if seenPoint then 1 else 0, seenPoint);
        return None;
      }
      value := value * 10 + digit;
      if seenPoint { fracDigits := fracDigits + 1; }
    }
    assert b[..|b|] == b;
    return Some((value, digits, fracDigits));
  }

  /** The scaling loop. */
  method ScaleUp(v: int, n: nat) returns (r: Option<int>)
    requires 0 <= v <= I64_MAX
    ensures r == if v * Pow(10, n) <= I64_MAX then Some(v * Pow(10, n)) else None
  {
    var value, left := v, n;
    while left > 0
      invariant 0 <= value <= I64_MAX && left >= 0
      invariant v * Pow(10, n) == value * Pow(10, left)
    {
      ScaleStep(value, left);
      if value > I64_MAX / 10 {
        PowPositive(10, left - 1);
        MulGrows(value * 10, Pow(10, left - 1));
        return None;
      }
      value := value * 10;
      left := left - 1;
    }
    return Some(value);
  }

  method ParseFixed(t: string, scale: nat) returns (r: Option<int>)
    ensures r == ParsedFixed(t, scale)
  {
    if t == [] { return None; }
    hide Value, Kept, Point, AllZero, Numeral;
    var read := ReadBody(Body(t), scale);
    if read.None? { return None; }
    var (value, digits, fracDigits) := read.value;
    if digits == 0 { return None; }
    r := ScaleUp(value, scale - fracDigits);
    if r.Some? && Negative(t) { r := Some(-r.value); }
  }

  lemma ReadNothing(scale: nat)
    ensures Read("", scale, 0, 0, 0, false)
  {}

  lemma ReadPoint(b: string, i: nat, scale: nat, value: int, digits: int, fracDigits: int, seenPoint: bool)
    requires i < |b| && b[i] == '.' && Read(b[..i], scale, value, digits, fracDigits, seenPoint)
    ensures seenPoint ==> Magnitude(b, scale).None?
    ensures !seenPoint ==> Read(b[..i + 1], scale, value, digits, fracDigits, true)
  {
    if seenPoint { BadCharacterIsFinal(b, i); } else { PointStepOfPrefix(b, i, scale); }
  }

  lemma ReadTooMuch(b: string, i: nat, scale: nat, value: int, digits: int, fracDigits: int, seenPoint: bool)
    requires i <= |b| && Read(b[..i], scale, value, digits, fracDigits, seenPoint) && value > I64_MAX
    ensures Magnitude(b, scale).None?
  {
    OverflowIsFinal(b, i, scale);
  }

  lemma ReadDigit(b: string, i: nat, scale: nat, value: int, digits: int, fracDigits: int, seenPoint: bool)
    requires i < |b| && b[i] != '.' && Read(b[..i], scale, value, digits, fracDigits, seenPoint)
    ensures !IsDigit(b[i]) ==> Magnitude(b, scale).None?
    ensures IsDigit(b[i]) && seenPoint && fracDigits == scale ==>
      if b[i] == '0' then Read(b[..i + 1], scale, value, digits + 1, fracDigits, seenPoint) else Magnitude(b, scale).None?
    ensures IsDigit(b[i]) && !(seenPoint && fracDigits == scale) ==>
      Read(b[..i + 1], scale, value * 10 + DigitOf(b[i]), digits + 1, fracDigits + (if seenPoint then 1 else 0), seenPoint)
  {
    if !IsDigit(b[i]) {
      BadCharacterIsFinal(b, i);
    } else if seenPoint && fracDigits == scale {
      if b[i] == '0' { ReadZero(b, i, scale, value, digits, fracDigits); } else { NonzeroBeyondIsFinal(b, i, scale); }
    } else {
      ReadKept(b, i, scale, value, digits, fracDigits, seenPoint);
    }
  }

  lemma ReadZero(b: string, i: nat, scale: nat, value: int, digits: int, fracDigits: int)
    requires i < |b| && b[i] == '0' && Read(b[..i], scale, value, digits, fracDigits, true) && fracDigits == scale
    ensures Read(b[..i + 1], scale, value, digits + 1, fracDigits, true)
  {
    hide Kept, Value;
    DigitStepOfPrefix(b, i, scale);
  }

  lemma ReadKept(b: string, i: nat, scale: nat, value: int, digits: int, fracDigits: int, seenPoint: bool)
    requires i < |b| && IsDigit(b[i]) && Read(b[..i], scale, value, digits, fracDigits, seenPoint)
    requires !(seenPoint && fracDigits == scale)
    ensures Read(b[..i + 1], scale, value * 10 + DigitOf(b[i]), digits + 1, fracDigits + (if seenPoint then 1 else 0), seenPoint)
  {
    hide Kept, Value;
    DigitStepOfPrefix(b, i, scale);
    ValueSnoc(Kept(b[..i], scale), b[i], 10);
  }

  lemma ScaleStep(value: nat, n: nat)
    requires n > 0
    ensures value * Pow(10, n) == value * 10 * Pow(10, n - 1)
  {
    MulAssociates(value, 10, Pow(10, n - 1));
  }

  // ---- exactness

  lemma {:induction false} AllZeroHasValueZero(t: string)
    requires Numeral(t, 10)
    ensures AllZero(t) <==> Value(t, 10) == 0
  {
    if t != [] {
      var init := t[..|t| - 1];
      AllZeroHasValueZero(init);
      assert AllZero(t) <==> AllZero(init) && t[|t| - 1] == '0';
    }
  }

  /** All digits, as the kept ones followed by the dropped ones. */
  lemma AllDigitsValue(b: string, scale: nat)
    requires IsDecimal(b)
    ensures var f := Min(|Fraction(b)|, scale);
      var dropped := Fraction(b)[f..];
      && Numeral(Whole(b) + Fraction(b), 10) && Numeral(Kept(b, scale), 10) && Numeral(dropped, 10)
      && Value(Whole(b) + Fraction(b), 10) == Value(Kept(b, scale), 10) * Pow(10, |dropped|) + Value(dropped, 10)
  {
    var f := Min(|Fraction(b)|, scale);
    KeptIsNumeral(b, scale);
    assert Whole(b) + Fraction(b) == Kept(b, scale) + Fraction(b)[f..];
    ValueConcat(Kept(b, scale), Fraction(b)[f..], 10);
  }

  lemma ScaledIsTheOnlySolution(b: string, scale: nat, m: nat)
    requires IsDecimal(b) && Numeral(Whole(b) + Fraction(b), 10)
    ensures Value(Whole(b) + Fraction(b), 10) * Pow(10, scale) == m * Pow(10, |Fraction(b)|)
       <==> AllZero(Fraction(b)[Min(|Fraction(b)|, scale)..]) && m == Scaled(b, scale)
  {
    var f := Min(|Fraction(b)|, scale);
    var dropped := Fraction(b)[f..];
    AllDigitsValue(b, scale);
    AllZeroHasValueZero(dropped);
    ValueBound(dropped, 10);
    ScaledIsProduct(b, scale);
    SolveDigits(Value(Whole(b) + Fraction(b), 10), Value(Kept(b, scale), 10), Value(dropped, 10), m,
      scale, |Fraction(b)|, |dropped|, f, AllZero(dropped), Scaled(b, scale));
  }

  /** The same with every digit text replaced by its value. */
  lemma SolveDigits(v: nat, kept: nat, rest: nat, m: nat, scale: nat, n: nat, d: nat, f: nat, zero: bool, scaled: nat)
    requires f == Min(n, scale) && d == n - f && v == kept * Pow(10, d) + rest && rest < Pow(10, d)
    requires (zero <==> rest == 0) && scaled == kept * Pow(10, scale - f)
    ensures v * Pow(10, scale) == m * Pow(10, n) <==> zero && m == scaled
  {
    hide Pow;
    SolveScaled(v, kept, rest, m, scale, n);
  }

  lemma SolveScaled(v: nat, kept: nat, rest: nat, m: nat, scale: nat, n: nat)
    requires var f := Min(n, scale); v == kept * Pow(10, n - f) + rest && rest < Pow(10, n - f)
    ensures v * Pow(10, scale) == m * Pow(10, n) <==> rest == 0 && m == kept * Pow(10, scale - Min(n, scale))
  {
    PowZero();
    hide Pow;
    if n >= scale {
      PowPositive(10, scale);
      PowAdd(10, n - scale, scale);
      SolveDropped(v, kept, rest, m, Pow(10, n - scale), Pow(10, scale), Pow(10, n));
    } else {
      PowPositive(10, n);
      PowAdd(10, scale - n, n);
      SolvePadded(v, m, Pow(10, scale - n), Pow(10, n), Pow(10, scale));
    }
  }

  lemma SolveDropped(v: nat, kept: nat, rest: nat, m: nat, drop: nat, up: nat, both: nat)
    requires v == kept * drop + rest && rest < drop && up > 0 && both == drop * up
    ensures v * up == m * both <==> rest == 0 && m == kept
  {
    MulAssociates(m, drop, up);
    SameFactor(v, m * drop, up);
    Remainder(kept, m, drop, rest);
  }

  lemma SolvePadded(v: nat, m: nat, up: nat, frac: nat, both: nat)
    requires frac > 0 && both == up * frac
    ensures v * both == m * frac <==> m == v * up
  {
    MulAssociates(v, up, frac);
    SameFactor(v * up, m, frac);
  }

  lemma PowZero()
    ensures Pow(10, 0) == 1
  {}

  lemma SameFactor(x: nat, y: nat, p: nat)
    requires p > 0
    ensures x * p == y * p <==> x == y
  {
    if x < y { assert x * p < y * p; }
    if y < x { assert y * p < x * p; }
  }

  lemma Remainder(v: nat, m: nat, d: nat, rest: nat)
    requires rest < d
    ensures v * d + rest == m * d <==> rest == 0 && v == m
  {
    if v < m { assert (v + 1) * d <= m * d; }
    if m < v { assert m * d < v * d; }
  }

  /** `parse_fixed` returns `n` exactly if the text denotes `n` and `n` fits. */
  lemma ParseFixedIsExact(t: string, scale: nat, n: int)
    ensures ParsedFixed(t, scale) == Some(n) <==> Denotes(t, scale, n) && -I64_MAX <= n <= I64_MAX
  {
    var b := Body(t);
    if IsDecimal(b) {
      AllDigitsValue(b, scale);
      var m := if Negative(t) then -n else n;
      if m >= 0 { ScaledIsTheOnlySolution(b, scale, m); }
    }
  }

  // ---- how decimals are written

  /** A sign, digits, and a point with more digits or none. */
  datatype Written = Written(minus: bool, whole: string, point: bool, fraction: string)

  predicate AllDigits(t: string) { forall i :: 0 <= i < |t| ==> '0' <= t[i] <= '9' }

  predicate IsWritten(t: string, w: Written) {
    && t == (if w.minus then "-" else "") + (w.whole + if w.point then "." + w.fraction else "")
    && AllDigits(w.whole) && AllDigits(w.fraction) && (!w.point ==> w.fraction == "") && |w.whole| + |w.fraction| > 0
  }

  /** The digits without the point, over the power of ten that the point divides by, scaled. */
  predicate Means(w: Written, scale: nat, n: int) {
    && (if w.minus then n <= 0 else n >= 0) && Numeral(w.whole + w.fraction, 10)
    && Value(w.whole + w.fraction, 10) * Pow(10, scale) == (if w.minus then -n else n) * Pow(10, |w.fraction|)
  }

  lemma {:induction false} WrittenParts(b: string, w: Written)
    requires b == w.whole + (if w.point then "." + w.fraction else "") && AllDigits(w.whole) && AllDigits(w.fraction)
    requires (!w.point ==> w.fraction == "") && |w.whole| + |w.fraction| > 0
    ensures Whole(b) == w.whole && Fraction(b) == w.fraction && IsDecimal(b)
  {
    NumeralIsDigits(w.whole);
    NumeralIsDigits(w.fraction);
    hide Numeral;
    assert forall i :: 0 <= i < |w.whole| ==> b[i] == w.whole[i];
    if w.point { assert b[|w.whole|] == '.'; }
    assert Point(b) >= |w.whole|;
  }

  function WrittenOf(t: string): Written {
    var b := Body(t); Written(Negative(t), Whole(b), Point(b) < |b|, Fraction(b))
  }

  lemma NumeralIsDigits(t: string)
    ensures Numeral(t, 10) <==> AllDigits(t)
  {
    assert forall c :: DigitOf(c) < 10 <==> '0' <= c <= '9';
    hide DigitOf;
  }

  lemma {:induction false} SplitAtPoint(b: string)
    ensures b == Whole(b) + if Point(b) < |b| then "." + Fraction(b) else ""
  {
    var k := Point(b);
    hide Point;
    if k < |b| { assert b == b[..k] + ([b[k]] + b[k + 1..]); } else { assert b == b[..k] + ""; }
  }

  lemma SplitSign(t: string)
    ensures t == (if Negative(t) then "-" else "") + Body(t)
  {
    if Negative(t) { assert t == [t[0]] + t[1..]; }
  }

  lemma {:induction false} DecimalIsWritten(t: string)
    requires IsDecimal(Body(t))
    ensures IsWritten(t, WrittenOf(t))
  {
    hide Whole, Fraction, Point, Numeral, AllDigits, Body, Negative;
    SplitSign(t);
    SplitAtPoint(Body(t));
    NumeralIsDigits(Whole(Body(t)));
    NumeralIsDigits(Fraction(Body(t)));
    NoPointNoFraction(Body(t));
  }

  lemma {:induction false} NoPointNoFraction(b: string)
    ensures Point(b) >= |b| ==> Fraction(b) == ""
  {}

  /** A text denotes a number exactly if it is written as a decimal that means it. */
  lemma {:induction false} DenotesExactly(t: string, scale: nat, n: int)
    ensures Denotes(t, scale, n) <==> exists w :: IsWritten(t, w) && Means(w, scale, n)
  {
    hide Value, Pow, Numeral, IsWritten, IsDecimal, Point, Whole, Fraction;
    if Denotes(t, scale, n) {
      DecimalIsWritten(t);
      assert Means(WrittenOf(t), scale, n);
    }
    forall w | IsWritten(t, w) && Means(w, scale, n) ensures Denotes(t, scale, n) { WrittenIsDecimal(t, w); }
  }

  lemma {:induction false} WrittenIsDecimal(t: string, w: Written)
    requires IsWritten(t, w)
    ensures IsDecimal(Body(t)) && Negative(t) == w.minus && Whole(Body(t)) == w.whole && Fraction(Body(t)) == w.fraction
  {
    var b := w.whole + if w.point then "." + w.fraction else "";
    WrittenParts(b, w);
    SignIs(t, w, b);
  }

  lemma SignIs(t: string, w: Written, b: string)
    requires IsWritten(t, w) && b == w.whole + if w.point then "." + w.fraction else ""
    ensures Negative(t) == w.minus && Body(t) == b
  {
    assert b[0] != '-' by { assert b[0] == if w.whole != "" then w.whole[0] else '.'; }
    if w.minus { assert t[1..] == b; }
  }
}
