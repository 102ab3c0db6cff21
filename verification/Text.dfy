/** Numerals, powers and small sequence facts shared by the text protocols.
    One Dafny `char` stands for one C++ `char`; no theorem below limits it to 256 values. */
module Text {

  datatype Option<+T> = None | Some(value: T)

  const U64_MAX: int := 0xFFFF_FFFF_FFFF_FFFF
  const I64_MAX: int := 0x7FFF_FFFF_FFFF_FFFF

  function Min(a: int, b: int): int { if a < b then a else b }

  lemma SliceOfSlice<T>(s: seq<T>, i: nat, end: nat, lo: nat, hi: nat)
    requires i <= end <= |s| && lo <= hi <= end - i
    ensures s[i..end][lo..hi] == s[i + lo..i + hi]
  {
    var a, b := s[i..end][lo..hi], s[i + lo..i + hi];
    forall k | 0 <= k < |a| ensures a[k] == b[k] {
      assert a[k] == s[i..end][lo + k];
    }
    assert a == b;
  }

  lemma SliceOfConcat<T>(s: seq<T>, t: seq<T>, a: nat, b: nat)
    requires a <= b <= |s|
    ensures (s + t)[a..b] == s[a..b]
  {}

  /** `word` stands at position `p` of `s`. */
  predicate StartsWith(s: string, p: nat, word: string) { p + |word| <= |s| && s[p..p + |word|] == word }

  lemma HasParts(s: string, p: nat, a: string, b: string)
    requires StartsWith(s, p, a + b)
    ensures StartsWith(s, p, a) && StartsWith(s, p + |a|, b)
    ensures p + |a| + |b| <= |s|
  {
    var n := |a + b|;
    SliceOfSlice(s, p, p + n, 0, |a|);
    SliceOfSlice(s, p, p + n, |a|, n);
    assert (a + b)[0..|a|] == a && (a + b)[|a|..n] == b;
  }

  lemma HeadAt(s: string, p: nat, word: string)
    requires StartsWith(s, p, word) && word != []
    ensures p < |s| && s[p] == word[0]
  {
    assert s[p] == s[p..p + |word|][0];
  }

  /** Pieces of a stream put together again. */
  function Flat<T>(pieces: seq<seq<T>>): seq<T> { if pieces == [] then [] else pieces[0] + Flat(pieces[1..]) }

  lemma JoinSlices<T>(s: seq<T>, a: nat, b: nat, c: nat)
    requires a <= b <= c <= |s|
    ensures s[a..b] + s[b..c] == s[a..c]
  {}

  function Pow(base: nat, n: nat): nat {
    if n == 0 then 1 else base * Pow(base, n - 1)
  }

  lemma {:induction false} PowAdd(base: nat, m: nat, n: nat)
    ensures Pow(base, m + n) == Pow(base, m) * Pow(base, n)
  {
    if m > 0 {
      PowAdd(base, m - 1, n);
      MulAssociates(base, Pow(base, m - 1), Pow(base, n));
    }
  }

  lemma {:induction false} PowPositive(base: nat, n: nat)
    requires base > 0
    ensures Pow(base, n) > 0
  {
    if n > 0 { PowPositive(base, n - 1); }
  }

  lemma MulAssociates(x: int, y: int, z: int)
    ensures x * (y * z) == (x * y) * z
  {}

  lemma MulOrder(a: int, b: int, d: int)
    requires a <= b && d >= 0
    ensures a * d <= b * d
  {}

  /** The only nonlinear step of positional notation: one more digit stays below one more power. */
  lemma DigitStep(v: nat, d: nat, base: nat, p: nat)
    requires d < base && v < p
    ensures v * base + d < base * p
  {
    assert (v + 1) * base <= p * base;
  }

  /** The numeric value of a digit in bases up to 16; 16 for any other character. */
  function DigitOf(c: char): nat {
    if '0' <= c <= '9' then c as int - '0' as int
    else if 'a' <= c <= 'f' then c as int - 'a' as int + 10
    else if 'A' <= c <= 'F' then c as int - 'A' as int + 10
    else 16
  }

  predicate IsDigit(c: char) { '0' <= c <= '9' }
  predicate IsHex(c: char) { DigitOf(c) < 16 }

  predicate Numeral(t: string, base: nat) {
    forall i :: 0 <= i < |t| ==> DigitOf(t[i]) < base
  }

  /** Positional value, most significant digit first. The empty numeral is zero. */
  function Value(t: string, base: nat): nat
    requires Numeral(t, base)
  {
    if t == [] then 0 else Value(t[..|t| - 1], base) * base + DigitOf(t[|t| - 1])
  }

  lemma {:induction false} ValueConcat(a: string, b: string, base: nat)
    requires Numeral(a, base) && Numeral(b, base)
    ensures Numeral(a + b, base)
    ensures Value(a + b, base) == Value(a, base) * Pow(base, |b|) + Value(b, base)
  {
    if b == [] {
      assert a + b == a;
    } else {
      var c, d := b[..|b| - 1], DigitOf(b[|b| - 1]);
      ValueConcat(a, c, base);
      assert (a + b)[..|a + b| - 1] == a + c;
      ConcatStep(Value(a, base), Pow(base, |c|), Value(c, base), d, base);
    }
  }

  lemma ConcatStep(a: int, p: int, c: int, d: int, base: int)
    ensures (a * p + c) * base + d == a * (base * p) + (c * base + d)
  {}

  lemma {:induction false} ValueBound(t: string, base: nat)
    requires base > 0 && Numeral(t, base)
    ensures Value(t, base) < Pow(base, |t|)
  {
    if t != [] {
      ValueBound(t[..|t| - 1], base);
      DigitStep(Value(t[..|t| - 1], base), DigitOf(t[|t| - 1]), base, Pow(base, |t| - 1));
    }
  }

  /** `std::from_chars` into an unsigned type, used on the whole text: no sign, no blanks,
      at least one digit, no overflow and nothing left over. */
  function FromChars(t: string, base: nat, max: int): Option<nat> {
    if t != [] && Numeral(t, base) && Value(t, base) <= max then Some(Value(t, base)) else None
  }

  function DigitChar(d: nat): (c: char)
    requires d < 16
    ensures DigitOf(c) == d
    ensures d < 10 ==> IsDigit(c)
  {
    if d < 10 then (d + '0' as int) as char else (d - 10 + 'a' as int) as char
  }

  lemma ValueSnoc(t: string, c: char, base: nat)
    requires Numeral(t, base) && DigitOf(c) < base
    ensures Numeral(t + [c], base) && Value(t + [c], base) == Value(t, base) * base + DigitOf(c)
  {
    assert (t + [c])[..|t|] == t;
  }

  /** `std::format("{}", n)`: decimal digits with no leading zeros. */
  function Decimal(n: nat): (t: string)
    ensures t != [] && Numeral(t, 10) && Value(t, 10) == n
  {
    if n < 10 then
      ValueSnoc([], DigitChar(n), 10);
      [DigitChar(n)]
    else
      ValueSnoc(Decimal(n / 10), DigitChar(n % 10), 10);
      Decimal(n / 10) + [DigitChar(n % 10)]
  }
}
