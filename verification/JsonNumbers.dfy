/** Number tokens are exactly the numbers of section 6 of RFC 8259. */
module JsonNumbers {
  import opened Text
  import opened JsonLexing

  /** A number by its parts; an absent fraction or exponent is the empty string. */
  datatype NumberParts = NumberParts(minus: string, whole: string, fraction: string, exponent: string)

  predicate AllDigits(t: string) { t != [] && forall i :: 0 <= i < |t| ==> IsDigit(t[i]) }

  predicate IsWhole(t: string) { t == "0" || (AllDigits(t) && t[0] != '0') }

  predicate IsFraction(t: string) { t == [] || (t[0] == '.' && AllDigits(t[1..])) }

  predicate IsExponent(t: string) {
    t == [] || ((t[0] == 'e' || t[0] == 'E') && |t| > 1 &&
                AllDigits(if t[1] == '+' || t[1] == '-' then t[2..] else t[1..]))
  }

  predicate Grammatical(n: NumberParts) {
    (n.minus == [] || n.minus == "-") && IsWhole(n.whole) && IsFraction(n.fraction) && IsExponent(n.exponent)
  }

  function Render(n: NumberParts): string { n.minus + (n.whole + (n.fraction + n.exponent)) }

  /** A byte that could extend a number. */
  predicate Extends(c: char) { IsDigit(c) || c == '.' || c == 'e' || c == 'E' || c == '+' || c == '-' }

  lemma {:induction false} DigitsEndStops(s: string, i: nat)
    requires i <= |s|
    ensures var e := DigitsEnd(s, i); e > i ==> AllDigits(s[i..e])
    ensures var e := DigitsEnd(s, i); e < |s| ==> !IsDigit(s[e])
    decreases |s| - i
  {
    if i < |s| && IsDigit(s[i]) { DigitsEndStops(s, i + 1); }
  }

  lemma {:induction false} DigitsEndReaches(s: string, i: nat, e: nat)
    requires i <= e <= |s| && (e < |s| ==> !IsDigit(s[e]))
    requires forall k :: i <= k < e ==> IsDigit(s[k])
    ensures DigitsEnd(s, i) == e
    decreases e - i
  {
    if i < e { DigitsEndReaches(s, i + 1, e); }
  }

  /** A number token is a number of the grammar. */
  lemma NumberTokenInGrammar(s: string, pos: nat) returns (n: NumberParts)
    requires pos <= |s| && NumberEnd(s, pos).Some?
    ensures Grammatical(n) && s[pos..NumberEnd(s, pos).value] == Render(n)
  {
    hide WholeEnd, FractionEnd, ExponentEnd, IsWhole, IsFraction, IsExponent;
    var a := if Peek(s, pos) == '-' then pos + 1 else pos;
    var b := WholeEnd(s, a).value;
    var c := FractionEnd(s, b).value;
    var e := ExponentEnd(s, c).value;
    n := NumberParts(s[pos..a], s[a..b], s[b..c], s[c..e]);
    WholeInGrammar(s, a);
    FractionInGrammar(s, b);
    ExponentInGrammar(s, c);
    JoinSlices(s, b, c, e);
    JoinSlices(s, a, b, e);
    JoinSlices(s, pos, a, e);
  }

  lemma WholeInGrammar(s: string, i: nat)
    requires i <= |s| && WholeEnd(s, i).Some?
    ensures IsWhole(s[i..WholeEnd(s, i).value])
  {
    DigitsEndStops(s, i);
  }

  lemma FractionInGrammar(s: string, i: nat)
    requires i <= |s| && FractionEnd(s, i).Some?
    ensures IsFraction(s[i..FractionEnd(s, i).value])
  {
    var e := FractionEnd(s, i).value;
    if e > i {
      DigitsEndStops(s, i + 1);
      assert s[i..e][1..] == s[i + 1..e];
    }
  }

  lemma ExponentInGrammar(s: string, i: nat)
    requires i <= |s| && ExponentEnd(s, i).Some?
    ensures IsExponent(s[i..ExponentEnd(s, i).value])
  {
    var e := ExponentEnd(s, i).value;
    if e > i {
      var t := s[i..e];
      DigitsEndStops(s, i + 1);
      if Peek(s, i + 1) == '+' || Peek(s, i + 1) == '-' {
        DigitsEndStops(s, i + 2);
        assert t[2..] == s[i + 2..e];
      }
      assert t[1..] == s[i + 1..e];
    }
  }

  lemma FractionLexes(s: string, i: nat, t: string)
    requires IsFraction(t) && StartsWith(s, i, t)
    requires var e := i + |t|; e < |s| ==> !IsDigit(s[e]) && s[e] != '.'
    ensures FractionEnd(s, i) == Some(i + |t|)
  {
    if t != [] {
      assert s[i] == t[0];
      forall k | i + 1 <= k < i + |t| ensures IsDigit(s[k]) { assert s[k] == t[1..][k - i - 1]; }
      DigitsEndReaches(s, i + 1, i + |t|);
    }
  }

  lemma ExponentLexes(s: string, i: nat, t: string)
    requires IsExponent(t) && StartsWith(s, i, t)
    requires var e := i + |t|; e < |s| ==> !Extends(s[e])
    ensures ExponentEnd(s, i) == Some(i + |t|)
  {
    if t != [] {
      assert s[i] == t[0] && s[i + 1] == t[1];
      var j := if t[1] == '+' || t[1] == '-' then 2 else 1;
      forall k | i + j <= k < i + |t| ensures IsDigit(s[k]) { assert s[k] == t[j..][k - i - j]; }
      assert IsDigit(s[i + j]);
      DigitsEndReaches(s, i + j, i + |t|);
    }
  }

  lemma WholeLexes(s: string, i: nat, t: string)
    requires IsWhole(t) && StartsWith(s, i, t)
    requires var e := i + |t|; e < |s| ==> !IsDigit(s[e])
    ensures i < |s| && WholeEnd(s, i) == Some(i + |t|) && IsDigit(s[i])
  {
    assert s[i] == t[0];
    if t != "0" {
      forall k | i <= k < i + |t| ensures IsDigit(s[k]) { assert s[k] == t[k - i]; }
      DigitsEndReaches(s, i, i + |t|);
    }
  }

  /** Every number of the grammar that nothing extends is lexed whole. */
  lemma NumberLexesWhole(s: string, pos: nat, n: NumberParts)
    requires Grammatical(n) && StartsWith(s, pos, Render(n))
    requires var e := pos + |Render(n)|; e < |s| ==> !Extends(s[e])
    ensures Lex(s, pos) == Lexed(Token(Number, Render(n), false), pos + |Render(n)|)
  {
    NumberEndsWhole(s, pos, n);
    hide NumberEnd, Render, Grammatical;
    NotAWord(s, pos);
  }

  lemma NumberEndsWhole(s: string, pos: nat, n: NumberParts)
    requires Grammatical(n) && StartsWith(s, pos, Render(n))
    requires var e := pos + |Render(n)|; e < |s| ==> !Extends(s[e])
    ensures pos < |s| && (s[pos] == '-' || IsDigit(s[pos]))
    ensures NumberEnd(s, pos) == Some(pos + |Render(n)|)
  {
    RenderParts(s, pos, n);
    hide NumberEnd, Grammatical, Render, StartsWith;
    PartsLex(s, pos, n);
  }

  lemma RenderParts(s: string, pos: nat, n: NumberParts)
    requires StartsWith(s, pos, Render(n))
    ensures StartsWith(s, pos, n.minus) && StartsWith(s, pos + |n.minus|, n.whole)
    ensures StartsWith(s, pos + |n.minus| + |n.whole|, n.fraction)
    ensures StartsWith(s, pos + |n.minus| + |n.whole| + |n.fraction|, n.exponent)
    ensures |Render(n)| == |n.minus| + |n.whole| + |n.fraction| + |n.exponent|
  {
    hide StartsWith;
    var tail := n.fraction + n.exponent;
    var rest := n.whole + tail;
    HasParts(s, pos, n.minus, rest);
    HasParts(s, pos + |n.minus|, n.whole, tail);
    HasParts(s, pos + |n.minus| + |n.whole|, n.fraction, n.exponent);
  }

  lemma PartsLex(s: string, pos: nat, n: NumberParts)
    requires Grammatical(n)
    requires StartsWith(s, pos, n.minus) && StartsWith(s, pos + |n.minus|, n.whole)
    requires StartsWith(s, pos + |n.minus| + |n.whole|, n.fraction)
    requires StartsWith(s, pos + |n.minus| + |n.whole| + |n.fraction|, n.exponent)
    requires var e := pos + |n.minus| + |n.whole| + |n.fraction| + |n.exponent|; e < |s| ==> !Extends(s[e])
    ensures pos < |s| && (s[pos] == '-' || IsDigit(s[pos]))
    ensures NumberEnd(s, pos) == Some(pos + |n.minus| + |n.whole| + |n.fraction| + |n.exponent|)
  {
    hide WholeEnd, FractionEnd, ExponentEnd, StartsWith, IsWhole, IsFraction, IsExponent;
    var a := pos + |n.minus|;
    var b := a + |n.whole|;
    var c := b + |n.fraction|;
    if n.exponent != [] { ExponentHead(s, c, n.exponent); }
    if n.fraction != [] { FractionHead(s, b, n.fraction); }
    if n.minus != [] { HeadAt(s, pos, n.minus); }
    ExponentLexes(s, c, n.exponent);
    FractionLexes(s, b, n.fraction);
    WholeLexes(s, a, n.whole);
  }

  lemma FractionHead(s: string, i: nat, t: string)
    requires IsFraction(t) && StartsWith(s, i, t) && t != []
    ensures i < |s| && s[i] == '.'
  {
    HeadAt(s, i, t);
  }

  lemma ExponentHead(s: string, i: nat, t: string)
    requires IsExponent(t) && StartsWith(s, i, t) && t != []
    ensures i < |s| && (s[i] == 'e' || s[i] == 'E')
  {
    HeadAt(s, i, t);
  }

  lemma NotAWord(s: string, p: nat)
    requires p < |s| && (s[p] == '-' || IsDigit(s[p]))
    ensures !StartsWith(s, p, "true") && !StartsWith(s, p, "false") && !StartsWith(s, p, "null")
    ensures Punctuator(s[p]).None? && s[p] != '\"'
  {
    hide StartsWith;
    OtherHead(s, p, "true");
    OtherHead(s, p, "false");
    OtherHead(s, p, "null");
  }

  lemma OtherHead(s: string, p: nat, word: string)
    requires p < |s| && word != [] && word[0] != s[p]
    ensures !StartsWith(s, p, word)
  {
    if StartsWith(s, p, word) { HeadAt(s, p, word); }
  }
}
