/** What decoding a string token means: when it fails, and which code points its UTF-8 spells. */
module JsonUnicode {
  import opened Text
  import opened JsonLexing
  import opened JsonStrings

  // ---- decoding fails exactly on an unpaired surrogate

  /** A string body as a list: characters, and the 16-bit units of its `\uXXXX` escapes. */
  datatype Piece = Plain(c: char) | Unit16(u: nat)

  function Pieces(raw: string, i: nat): seq<Piece>
    requires i <= |raw|
    decreases |raw| - i
  {
    if i == |raw| then []
    else if raw[i] != '\\' then [Plain(raw[i])] + Pieces(raw, i + 1)
    else if EscapeLength(raw, i) == 6 then [Unit16(Unit(raw, i))] + Pieces(raw, i + 6)
    else if EscapeLength(raw, i) == 2 then [Plain(SimpleEscape(raw[i + 1]))] + Pieces(raw, i + 2)
    else []
  }

  predicate HighAt(ps: seq<Piece>, k: int) { 0 <= k < |ps| && ps[k].Unit16? && HighSurrogate(ps[k].u) }
  predicate LowAt(ps: seq<Piece>, k: int) { 0 <= k < |ps| && ps[k].Unit16? && LowSurrogate(ps[k].u) }

  predicate UnpairedAt(ps: seq<Piece>, k: int) {
    (HighAt(ps, k) && !LowAt(ps, k + 1)) || (LowAt(ps, k) && !HighAt(ps, k - 1))
  }

  ghost predicate Unpaired(ps: seq<Piece>) { exists k :: UnpairedAt(ps, k) }

  lemma UnpairedShift(front: seq<Piece>, tail: seq<Piece>)
    requires |front| == 1 || (|front| == 2 && HighAt(front, 0) && LowAt(front, 1))
    requires |front| == 1 ==> !HighAt(front, 0) && !LowAt(front, 0)
    ensures Unpaired(front + tail) <==> Unpaired(tail)
  {
    var ps, n := front + tail, |front|;
    assert forall k :: HighAt(ps, k) <==> if k < n then HighAt(front, k) else HighAt(tail, k - n);
    assert forall k :: LowAt(ps, k) <==> if k < n then LowAt(front, k) else LowAt(tail, k - n);
    if Unpaired(tail) {
      var k :| UnpairedAt(tail, k);
      assert UnpairedAt(ps, k + n);
    }
    if Unpaired(ps) {
      var k :| UnpairedAt(ps, k);
      assert UnpairedAt(tail, k - n);
    }
  }

  /** Decoding a string body fails exactly if one of its surrogates is unpaired. */
  lemma {:induction false} DecodeFailsOnUnpaired(raw: string, i: nat)
    requires i <= |raw| && StringBody(raw[i..])
    ensures Decoded(raw, i).None? <==> Unpaired(Pieces(raw, i))
    decreases |raw| - i
  {
    if i < |raw| {
      BodySuffix(raw, i);
      hide Unpaired, StringBody;
      if raw[i] != '\\' || EscapeLength(raw, i) == 2 {
        var n := if raw[i] != '\\' then 1 else 2;
        DecodeFailsOnUnpaired(raw, i + n);
        UnpairedShift([Pieces(raw, i)[0]], Pieces(raw, i + n));
      } else if HighSurrogate(Unit(raw, i)) && LowFollows(raw, i) {
        BodySuffix(raw, i + 6);
        DecodeFailsOnUnpaired(raw, i + 12);
        PairShift(raw, i);
      } else if HighSurrogate(Unit(raw, i)) || LowSurrogate(Unit(raw, i)) {
        LoneSurrogate(raw, i);
      } else {
        DecodeFailsOnUnpaired(raw, i + 6);
        UnpairedShift([Pieces(raw, i)[0]], Pieces(raw, i + 6));
      }
    }
  }

  lemma PairShift(raw: string, i: nat)
    requires i < |raw| && raw[i] == '\\' && EscapeLength(raw, i) == 6
    requires HighSurrogate(Unit(raw, i)) && LowFollows(raw, i)
    ensures Unpaired(Pieces(raw, i)) <==> Unpaired(Pieces(raw, i + 12))
  {
    hide Unpaired;
    var h, l := Unit16(Unit(raw, i)), Unit16(Unit(raw, i + 6));
    assert Pieces(raw, i) == [h] + ([l] + Pieces(raw, i + 12)) == [h, l] + Pieces(raw, i + 12);
    UnpairedShift([h, l], Pieces(raw, i + 12));
  }

  lemma LoneSurrogate(raw: string, i: nat)
    requires i < |raw| && raw[i] == '\\' && EscapeLength(raw, i) == 6 && StringBody(raw[i + 6..])
    requires LowSurrogate(Unit(raw, i)) || (HighSurrogate(Unit(raw, i)) && !LowFollows(raw, i))
    ensures Unpaired(Pieces(raw, i))
  {
    if i + 6 < |raw| { BodySuffix(raw, i + 6); }
    var tail := Pieces(raw, i + 6);
    assert Pieces(raw, i) == [Unit16(Unit(raw, i))] + tail;
    assert LowAt(Pieces(raw, i), 1) <==> LowAt(tail, 0);
    assert UnpairedAt(Pieces(raw, i), 0);
  }

  // ---- UTF-8 of RFC 3629, as a strict decoder

  predicate IsTail(t: string, i: nat) { i < |t| && 0x80 <= t[i] as int <= 0xBF }

  function TailBits(t: string, i: nat): nat
    requires IsTail(t, i)
  {
    t[i] as int - 0x80
  }

  /** The code point at `i` and its length: shortest form only, no surrogates, at most U+10FFFF. */
  function DecodeOne(t: string, i: nat): (r: Option<(nat, nat)>)
    ensures r.Some? ==> r.value.1 > 0 && i + r.value.1 <= |t|
  {
    if i >= |t| then None
    else
      var b := t[i] as int;
      if b < 0x80 then Some((b, 1))
      else if 0xC0 <= b < 0xE0 && IsTail(t, i + 1) then
        var cp := (b - 0xC0) * 0x40 + TailBits(t, i + 1);
        if cp >= 0x80 then Some((cp, 2)) else None
      else if 0xE0 <= b < 0xF0 && IsTail(t, i + 1) && IsTail(t, i + 2) then
        var cp := (b - 0xE0) * 0x1000 + TailBits(t, i + 1) * 0x40 + TailBits(t, i + 2);
        if cp >= 0x800 && Scalar(cp) then Some((cp, 3)) else None
      else if 0xF0 <= b < 0xF8 && IsTail(t, i + 1) && IsTail(t, i + 2) && IsTail(t, i + 3) then
        var cp := (b - 0xF0) * 0x40000 + TailBits(t, i + 1) * 0x1000 + TailBits(t, i + 2) * 0x40 + TailBits(t, i + 3);
        if cp >= 0x10000 && Scalar(cp) then Some((cp, 4)) else None
      else None
  }

  function Cons(cp: nat, r: Option<seq<nat>>): Option<seq<nat>> { if r.Some? then Some([cp] + r.value) else None }

  function DecodeUtf8(t: string, i: nat): Option<seq<nat>>
    requires i <= |t|
    decreases |t| - i
  {
    if i == |t| then Some([])
    else
      match DecodeOne(t, i)
      case None => None
      case Some((cp, n)) => Cons(cp, DecodeUtf8(t, i + n))
  }

  predicate AllScalars(cps: seq<nat>) { forall k :: 0 <= k < |cps| ==> Scalar(cps[k]) }

  function EncodeAll(cps: seq<nat>): string
    requires AllScalars(cps)
  {
    if cps == [] then [] else Utf8(cps[0]) + EncodeAll(cps[1..])
  }

  lemma SixBits(cp: int, high: int, low: int)
    requires 0 <= low < 0x40
    ensures cp == high * 0x40 + low <==> high == cp / 0x40 && low == cp % 0x40
  {}

  /** Bytes that spell `cp` in groups of six bits. */
  lemma Groups(cp: nat, a: nat, b: nat, c: nat, d: nat)
    requires b < 0x40 && c < 0x40 && d < 0x40
    ensures cp == a * 0x40 + b <==> a == cp / 0x40 && b == cp % 0x40
    ensures cp == a * 0x1000 + b * 0x40 + c <==> a == cp / 0x1000 && b == cp / 0x40 % 0x40 && c == cp % 0x40
    ensures cp == a * 0x40000 + b * 0x1000 + c * 0x40 + d
       <==> a == cp / 0x40000 && b == cp / 0x1000 % 0x40 && c == cp / 0x40 % 0x40 && d == cp % 0x40
  {
    SixBits(cp, a, b);
    SixBits(cp, a * 0x40 + b, c);
    SixBits(cp / 0x40, a, b);
    SixBits(cp, a * 0x1000 + b * 0x40 + c, d);
    SixBits(cp / 0x40, a * 0x40 + b, c);
    SixBits(cp / 0x1000, a, b);
    assert cp / 0x40 / 0x40 == cp / 0x1000 && cp / 0x1000 / 0x40 == cp / 0x40000;
  }

  /** What stands at `i` decodes to `cp` exactly if it is the UTF-8 form of `cp`. */
  lemma OneCodePoint(t: string, i: nat, cp: nat)
    requires Scalar(cp)
    ensures DecodeOne(t, i) == Some((cp, |Utf8(cp)|)) <==> StartsWith(t, i, Utf8(cp))
  {
    if cp < 0x80 { SameBytes(t, i, Utf8(cp)); }
    else if cp < 0x800 { TwoBytes(t, i, cp); }
    else if cp < 0x10000 { ThreeBytes(t, i, cp); }
    else { FourBytes(t, i, cp); }
  }

  lemma TwoBytes(t: string, i: nat, cp: nat)
    requires 0x80 <= cp < 0x800
    ensures DecodeOne(t, i) == Some((cp, 2)) <==> StartsWith(t, i, Utf8(cp))
  {
    SameBytes(t, i, Utf8(cp));
    if IsTail(t, i + 1) && 0xC0 <= t[i] as int {
      Groups(cp, t[i] as int - 0xC0, TailBits(t, i + 1), 0, 0);
    }
  }

  lemma ThreeBytes(t: string, i: nat, cp: nat)
    requires Scalar(cp) && 0x800 <= cp < 0x10000
    ensures DecodeOne(t, i) == Some((cp, 3)) <==> StartsWith(t, i, Utf8(cp))
  {
    SameBytes(t, i, Utf8(cp));
    if IsTail(t, i + 1) && IsTail(t, i + 2) && 0xE0 <= t[i] as int {
      Groups(cp, t[i] as int - 0xE0, TailBits(t, i + 1), TailBits(t, i + 2), 0);
    }
  }

  lemma FourBytes(t: string, i: nat, cp: nat)
    requires Scalar(cp) && 0x10000 <= cp
    ensures DecodeOne(t, i) == Some((cp, 4)) <==> StartsWith(t, i, Utf8(cp))
  {
    SameBytes(t, i, Utf8(cp));
    if IsTail(t, i + 1) && IsTail(t, i + 2) && IsTail(t, i + 3) && 0xF0 <= t[i] as int {
      Groups(cp, t[i] as int - 0xF0, TailBits(t, i + 1), TailBits(t, i + 2), TailBits(t, i + 3));
    }
  }

  lemma SameBytes(t: string, i: nat, u: string)
    requires 1 <= |u| <= 4
    ensures StartsWith(t, i, u) <==>
      && i + |u| <= |t| && t[i] == u[0]
      && (|u| > 1 ==> t[i + 1] == u[1]) && (|u| > 2 ==> t[i + 2] == u[2]) && (|u| > 3 ==> t[i + 3] == u[3])
  {
    if i + |u| <= |t| {
      var v := t[i..i + |u|];
      assert v[0] == t[i] && (|u| > 1 ==> v[1] == t[i + 1]) && (|u| > 2 ==> v[2] == t[i + 2]) && (|u| > 3 ==> v[3] == t[i + 3]);
    }
  }

  lemma DecodedIsScalar(t: string, i: nat)
    ensures DecodeOne(t, i).Some? ==> Scalar(DecodeOne(t, i).value.0)
    ensures DecodeOne(t, i).Some? ==> DecodeOne(t, i).value.1 == |Utf8(DecodeOne(t, i).value.0)|
  {}

  lemma EncodedStarts(t: string, i: nat, cps: seq<nat>)
    requires i <= |t| && cps != [] && Scalar(cps[0])
    ensures AllScalars(cps) && t[i..] == EncodeAll(cps) ==> StartsWith(t, i, Utf8(cps[0]))
  {
    var u := Utf8(cps[0]);
    if AllScalars(cps) && t[i..] == EncodeAll(cps) {
      SliceOfSlice(t, i, |t|, 0, |u|);
      assert EncodeAll(cps)[0..|u|] == u;
    }
  }

  /** Encoding and strict decoding are inverse to each other. */
  lemma {:induction false} Utf8Inverse(t: string, i: nat, cps: seq<nat>)
    requires i <= |t|
    ensures DecodeUtf8(t, i) == Some(cps) <==> AllScalars(cps) && t[i..] == EncodeAll(cps)
    decreases |t| - i
  {
    hide DecodeOne, Utf8;
    if i < |t| {
      DecodedIsScalar(t, i);
      if cps != [] && Scalar(cps[0]) {
        var u := Utf8(cps[0]);
        OneCodePoint(t, i, cps[0]);
        if StartsWith(t, i, u) {
          Utf8Inverse(t, i + |u|, cps[1..]);
          assert t[i..] == u + t[i + |u|..];
          assert cps == [cps[0]] + cps[1..];
        } else {
          EncodedStarts(t, i, cps);
        }
      }
    }
  }

  // ---- the code points of a string token

  /** The code points a string body of well-formed UTF-8 text with escapes stands for. */
  function CodePoints(raw: string, i: nat): Option<seq<nat>>
    requires i <= |raw|
    decreases |raw| - i
  {
    if i == |raw| then Some([])
    else if raw[i] != '\\' then
      match DecodeOne(raw, i)
      case None => None
      case Some((cp, n)) => Cons(cp, CodePoints(raw, i + n))
    else if EscapeLength(raw, i) == 2 then Cons(SimpleEscape(raw[i + 1]) as int, CodePoints(raw, i + 2))
    else if EscapeLength(raw, i) != 6 || LowSurrogate(Unit(raw, i)) then None
    else if !HighSurrogate(Unit(raw, i)) then Cons(Unit(raw, i), CodePoints(raw, i + 6))
    else if LowFollows(raw, i) then Cons(Combine(Unit(raw, i), Unit(raw, i + 6)), CodePoints(raw, i + 12))
    else None
  }

  lemma {:induction false} PlainRun(raw: string, i: nat, n: nat)
    requires i + n <= |raw| && forall k :: i <= k < i + n ==> raw[k] != '\\'
    ensures Decoded(raw, i) == Prepend(raw[i..i + n], Decoded(raw, i + n))
    decreases n
  {
    if n == 0 {
      assert Decoded(raw, i).Some? ==> raw[i..i] + Decoded(raw, i).value == Decoded(raw, i).value;
    } else {
      PlainRun(raw, i + 1, n - 1);
      PrependAssociates([raw[i]], raw[i + 1..i + n], Decoded(raw, i + n));
      assert [raw[i]] + raw[i + 1..i + n] == raw[i..i + n];
    }
  }

  lemma MultibyteHasNoBackslash(t: string, i: nat)
    requires DecodeOne(t, i).Some? && t[i] != '\\'
    ensures forall k :: i <= k < i + DecodeOne(t, i).value.1 ==> t[k] != '\\'
  {}

  /** A literal UTF-8 character is copied byte by byte. */
  lemma LiteralStep(raw: string, i: nat)
    requires i < |raw| && raw[i] != '\\' && DecodeOne(raw, i).Some?
    ensures var (cp, n) := DecodeOne(raw, i).value;
      Scalar(cp) && Decoded(raw, i) == Prepend(Utf8(cp), Decoded(raw, i + n))
  {
    var (cp, n) := DecodeOne(raw, i).value;
    DecodedIsScalar(raw, i);
    MultibyteHasNoBackslash(raw, i);
    hide DecodeOne, Utf8, Scalar, Decoded;
    OneCodePoint(raw, i, cp);
    PlainRun(raw, i, n);
  }

  lemma SimpleEscapeIsAscii(raw: string, i: nat)
    requires EscapeLength(raw, i) == 2
    ensures SimpleEscape(raw[i + 1]) as int < 0x80
    ensures Utf8(SimpleEscape(raw[i + 1]) as int) == [SimpleEscape(raw[i + 1])]
  {
    var k :| 0 <= k < 8 && SIMPLE_ESCAPES[k] == raw[i + 1];
  }

  // ---- every token the decoder accepts

  /** The first decoded byte continues a UTF-8 sequence exactly if the first raw one does, and is then that byte. */
  lemma TailAgrees(raw: string, i: nat, d: string)
    requires i <= |raw| && Decoded(raw, i) == Some(d)
    ensures IsTail(d, 0) <==> IsTail(raw, i)
    ensures IsTail(raw, i) ==> d[0] == raw[i] && Decoded(raw, i + 1) == Some(d[1..])
  {
    if i < |raw| && raw[i] != '\\' {
      assert d[1..] == Decoded(raw, i + 1).value;
    } else if i < |raw| && EscapeLength(raw, i) == 2 {
      SimpleEscapeIsAscii(raw, i);
    } else if i < |raw| && !HighSurrogate(Unit(raw, i)) {
      UnitBound(raw, i);
      HeadIsNoTail(Unit(raw, i));
    } else if i < |raw| {
      HeadIsNoTail(Combine(Unit(raw, i), Unit(raw, i + 6)));
    }
  }

  lemma HeadIsNoTail(cp: nat)
    requires cp <= 0x10FFFF
    ensures !IsTail(Utf8(cp), 0)
  {}

  /** A literal first byte starts the same character before and after decoding. */
  lemma FirstCharacterAgrees(raw: string, i: nat, d: string)
    requires i < |raw| && raw[i] != '\\' && Decoded(raw, i) == Some(d)
    ensures DecodeOne(d, 0) == DecodeOne(raw, i)
  {
    assert d[1..] == Decoded(raw, i + 1).value;
    hide Decoded, DecodeOne;
    TailAgreesAt(raw, i + 1, d, 1);
    if IsTail(raw, i + 1) {
      TailAgreesAt(raw, i + 2, d, 2);
      if IsTail(raw, i + 2) { TailAgreesAt(raw, i + 3, d, 3); }
    }
    SameCharacter(raw, i, d, 0);
  }

  lemma TailAgreesAt(raw: string, i: nat, d: string, k: nat)
    requires i <= |raw| && k <= |d| && Decoded(raw, i) == Some(d[k..])
    ensures IsTail(d, k) <==> IsTail(raw, i)
    ensures IsTail(raw, i) ==> d[k] == raw[i] && Decoded(raw, i + 1) == Some(d[k + 1..])
  {
    hide Decoded;
    TailAgrees(raw, i, d[k..]);
    assert k < |d| ==> d[k..][1..] == d[k + 1..];
  }

  lemma SameCharacter(t: string, i: nat, u: string, j: nat)
    requires i < |t| && j < |u| && t[i] == u[j]
    requires IsTail(t, i + 1) <==> IsTail(u, j + 1)
    requires IsTail(t, i + 1) ==> t[i + 1] == u[j + 1] && (IsTail(t, i + 2) <==> IsTail(u, j + 2))
    requires IsTail(t, i + 1) && IsTail(t, i + 2) ==> t[i + 2] == u[j + 2] && (IsTail(t, i + 3) <==> IsTail(u, j + 3))
    requires IsTail(t, i + 1) && IsTail(t, i + 2) && IsTail(t, i + 3) ==> t[i + 3] == u[j + 3]
    ensures DecodeOne(t, i) == DecodeOne(u, j)
  {}

  lemma DecodeOneInSuffix(t: string, i: nat)
    requires i <= |t|
    ensures DecodeOne(t[i..], 0) == DecodeOne(t, i)
  {
    hide DecodeOne;
    if i < |t| { SameCharacter(t, i, t[i..], 0); } else { NoCharacter(t); }
  }

  lemma NoCharacter(t: string)
    ensures DecodeOne(t, |t|) == None == DecodeOne(t[|t|..], 0)
  {}

  lemma {:induction false} DecodeSuffix(t: string, i: nat)
    requires i <= |t|
    ensures DecodeUtf8(t[i..], 0) == DecodeUtf8(t, i)
    decreases |t| - i
  {
    hide DecodeOne;
    if i < |t| {
      DecodeOneInSuffix(t, i);
      if DecodeOne(t, i).Some? {
        var n := DecodeOne(t, i).value.1;
        DecodeSuffix(t, i + n);
        DecodeSuffix(t[i..], n);
        assert t[i..][n..] == t[i + n..];
      }
    }
  }

  lemma ConsReads(cp: nat, d: string)
    requires Scalar(cp)
    ensures DecodeUtf8(Utf8(cp) + d, 0) == Cons(cp, DecodeUtf8(d, 0))
  {
    hide DecodeOne, Utf8;
    var u := Utf8(cp);
    assert (u + d)[0..0 + |u|] == u;
    OneCodePoint(u + d, 0, cp);
    DecodeSuffix(u + d, |u|);
    assert (u + d)[|u|..] == d;
  }

  /** Reading the decoded string as UTF-8 gives exactly the code points the token spells, or fails where the
      token's literal bytes are not UTF-8: an escape never repairs or breaks the bytes around it. */
  lemma {:induction false} DecodedReadsAsCodePoints(raw: string, i: nat)
    requires i <= |raw|
    ensures Decoded(raw, i).Some? ==> DecodeUtf8(Decoded(raw, i).value, 0) == CodePoints(raw, i)
    ensures CodePoints(raw, i).Some? ==> Decoded(raw, i).Some?
    decreases |raw| - i
  {
    hide Utf8, DecodeOne, DecodeUtf8;
    if i == |raw| {
      NothingReads();
    } else if raw[i] != '\\' {
      if DecodeOne(raw, i).Some? {
        LiteralStep(raw, i);
        DecodedReadsAsCodePoints(raw, i + DecodeOne(raw, i).value.1);
      }
      if Decoded(raw, i).Some? { LiteralReads(raw, i); }
    } else if EscapeLength(raw, i) == 2 {
      SimpleEscapeIsAscii(raw, i);
      DecodedReadsAsCodePoints(raw, i + 2);
      if Decoded(raw, i + 2).Some? { ConsReads(SimpleEscape(raw[i + 1]) as int, Decoded(raw, i + 2).value); }
    } else if EscapeLength(raw, i) == 6 && !LowSurrogate(Unit(raw, i)) {
      if !HighSurrogate(Unit(raw, i)) {
        UnitBound(raw, i);
        DecodedReadsAsCodePoints(raw, i + 6);
        if Decoded(raw, i + 6).Some? { ConsReads(Unit(raw, i), Decoded(raw, i + 6).value); }
      } else if LowFollows(raw, i) {
        DecodedReadsAsCodePoints(raw, i + 12);
        if Decoded(raw, i + 12).Some? { ConsReads(Combine(Unit(raw, i), Unit(raw, i + 6)), Decoded(raw, i + 12).value); }
      }
    }
  }

  lemma NothingReads()
    ensures DecodeUtf8("", 0) == Some([])
  {}

  lemma LiteralReads(raw: string, i: nat)
    requires i < |raw| && raw[i] != '\\' && Decoded(raw, i).Some?
    ensures match DecodeOne(raw, i)
            case None => DecodeUtf8(Decoded(raw, i).value, 0) == None
            case Some((cp, n)) =>
              && Decoded(raw, i + n).Some?
              && DecodeUtf8(Decoded(raw, i).value, 0) == Cons(cp, DecodeUtf8(Decoded(raw, i + n).value, 0))
  {
    var d := Decoded(raw, i).value;
    FirstCharacterAgrees(raw, i, d);
    assert d != [];
    if DecodeOne(raw, i).Some? {
      var (cp, n) := DecodeOne(raw, i).value;
      LiteralStep(raw, i);
      hide DecodeOne, Utf8, Decoded;
      ConsReads(cp, Decoded(raw, i + n).value);
    }
  }
}
