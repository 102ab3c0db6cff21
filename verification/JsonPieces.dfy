/** The inside of a string, piece by piece: what each piece looks like and what it stands for, by section 7 of
    RFC 8259. */
module JsonPieces {
  import opened Text
  import opened JsonLexing
  import opened JsonStrings

  /** A character as it is, an escaped one, or four hexadecimal digits. */
  datatype Piece = Literal(c: char) | Escaped(c: char) | Unicode(digits: string)

  function HexDigit(c: char): Option<nat> {
    match c
    case '0' => Some(0) case '1' => Some(1) case '2' => Some(2) case '3' => Some(3) case '4' => Some(4)
    case '5' => Some(5) case '6' => Some(6) case '7' => Some(7) case '8' => Some(8) case '9' => Some(9)
    case 'a' => Some(10) case 'b' => Some(11) case 'c' => Some(12)
    case 'd' => Some(13) case 'e' => Some(14) case 'f' => Some(15)
    case 'A' => Some(10) case 'B' => Some(11) case 'C' => Some(12)
    case 'D' => Some(13) case 'E' => Some(14) case 'F' => Some(15)
    case _ => None
  }

  /** What an escaped character stands for. */
  function Meant(c: char): Option<char> {
    match c
    case '\"' => Some('\"')
    case '\\' => Some('\\')
    case '/' => Some('/')
    case 'b' => Some('\U{08}')
    case 'f' => Some('\U{0C}')
    case 'n' => Some('\U{0A}')
    case 'r' => Some('\U{0D}')
    case 't' => Some('\U{09}')
    case _ => None
  }

  predicate GoodPiece(p: Piece) {
    match p
    case Literal(c) => c >= '\U{20}' && c != '\"' && c != '\\'
    case Escaped(c) => Meant(c).Some?
    case Unicode(d) => |d| == 4 && HexDigit(d[0]).Some? && HexDigit(d[1]).Some? && HexDigit(d[2]).Some? && HexDigit(d[3]).Some?
  }

  predicate GoodPieces(ps: seq<Piece>) { forall i :: 0 <= i < |ps| ==> GoodPiece(ps[i]) }

  function Written(p: Piece): string {
    match p
    case Literal(c) => [c]
    case Escaped(c) => ['\\', c]
    case Unicode(d) => ['\\', 'u'] + d
  }

  function AllWritten(ps: seq<Piece>): string { if ps == [] then [] else Written(ps[0]) + AllWritten(ps[1..]) }

  function CodeUnit(d: string): nat
    requires GoodPiece(Unicode(d))
  {
    HexDigit(d[0]).value * 4096 + HexDigit(d[1]).value * 256 + HexDigit(d[2]).value * 16 + HexDigit(d[3]).value
  }

  // ---- surrogates

  /** The pair of units for a code point beyond the first 65536, by section 2.1 of RFC 2781. */
  function UnitsFor(cp: nat): (nat, nat)
    requires 0x10000 <= cp <= 0x10FFFF
  {
    ((cp - 0x10000) / 1024 + 0xD800, (cp - 0x10000) % 1024 + 0xDC00)
  }

  /** Combining a pair undoes splitting, in both directions. */
  lemma PairsAreCodePoints(cp: nat, high: nat, low: nat)
    requires 0x10000 <= cp <= 0x10FFFF && 0xD800 <= high <= 0xDBFF && 0xDC00 <= low <= 0xDFFF
    ensures HighSurrogate(high) && LowSurrogate(low)
    ensures Combine(high, low) == cp <==> UnitsFor(cp) == (high, low)
  {}

  /** The text the pieces stand for, or `None` if a surrogate has no partner. */
  function Meaning(ps: seq<Piece>): Option<string>
    requires GoodPieces(ps)
  {
    if ps == [] then Some("")
    else
      match ps[0]
      case Literal(c) => Prepend([c], Meaning(ps[1..]))
      case Escaped(c) => Prepend([Meant(c).value], Meaning(ps[1..]))
      case Unicode(d) =>
        var u := CodeUnit(d);
        if 0xDC00 <= u <= 0xDFFF then None
        else if u < 0xD800 || u > 0xDFFF then
          SmallUnit(d);
          Prepend(Utf8(u), Meaning(ps[1..]))
        else if |ps| > 1 && ps[1].Unicode? && 0xDC00 <= CodeUnit(ps[1].digits) <= 0xDFFF then
          Prepend(Utf8(Combine(u, CodeUnit(ps[1].digits))), Meaning(ps[2..]))
        else None
  }

  lemma SmallUnit(d: string)
    requires GoodPiece(Unicode(d))
    ensures CodeUnit(d) <= 0xFFFF
  {
    HexIsSmall(d[0]);
    HexIsSmall(d[1]);
    HexIsSmall(d[2]);
    HexIsSmall(d[3]);
  }

  lemma HexIsSmall(c: char)
    ensures HexDigit(c).Some? ==> HexDigit(c).value < 16
  {}

  // ---- the scanner and the decoder on pieces

  lemma HexDigitIs(c: char)
    ensures HexDigit(c).Some? <==> DigitOf(c) < 16
    ensures HexDigit(c).Some? ==> HexDigit(c).value == DigitOf(c)
  {}

  lemma EscapesAre(c: char)
    ensures Meant(c).Some? <==> c in SIMPLE_ESCAPES
    ensures Meant(c).Some? ==> Meant(c).value == SimpleEscape(c)
    ensures Meant('u').None?
  {
    assert SIMPLE_ESCAPES == ['\"', '\\', '/', 'b', 'f', 'n', 'r', 't'];
  }

  /** An escape of the text is one piece. */
  lemma PieceLength(s: string, i: nat, p: Piece, rest: string)
    requires i <= |s| && s[i..] == Written(p) + rest && GoodPiece(p) && !p.Literal?
    ensures i + 1 < |s| && s[i] == '\\' && EscapeLength(s, i) == |Written(p)| == if p.Escaped? then 2 else 6
    ensures p.Escaped? ==> s[i + 1] == p.c
    ensures p.Unicode? ==> s[i + 2..i + 6] == p.digits
    ensures s[i + |Written(p)|..] == rest
  {
    var w := Written(p);
    assert s[i] == s[i..][0] == w[0] && s[i + 1] == s[i..][1] == w[1];
    EscapesAre(s[i + 1]);
    assert s[i + |w|..] == s[i..][|w|..] == rest;
    if p.Unicode? {
      assert s[i + 2..i + 6] == s[i..][2..6] == w[2..6] == p.digits;
      HexDigitIs(p.digits[0]);
      HexDigitIs(p.digits[1]);
      HexDigitIs(p.digits[2]);
      HexDigitIs(p.digits[3]);
    }
  }

  lemma UnitIs(s: string, i: nat, d: string)
    requires EscapeLength(s, i) == 6 && s[i + 2..i + 6] == d && GoodPiece(Unicode(d))
    ensures Unit(s, i) == CodeUnit(d)
  {
    HexDigitIs(d[0]);
    HexDigitIs(d[1]);
    HexDigitIs(d[2]);
    HexDigitIs(d[3]);
    FourHexDigits(d);
  }

  lemma FourHexDigits(d: string)
    requires |d| == 4 && Numeral(d, 16)
    ensures Value(d, 16) == DigitOf(d[0]) * 4096 + DigitOf(d[1]) * 256 + DigitOf(d[2]) * 16 + DigitOf(d[3])
  {
    var a, b, c := d[..3], d[..2], d[..1];
    assert a[..2] == b && b[..1] == c && c[..0] == [];
    assert Value(c, 16) == DigitOf(d[0]);
    assert Value(b, 16) == Value(c, 16) * 16 + DigitOf(d[1]);
    assert Value(a, 16) == Value(b, 16) * 16 + DigitOf(d[2]);
  }

  /** The decoder reads pieces for what they mean. */
  lemma {:induction false} PiecesAreDecoded(s: string, i: nat, ps: seq<Piece>)
    requires i <= |s| && s[i..] == AllWritten(ps) && GoodPieces(ps)
    ensures Decoded(s, i) == Meaning(ps)
    decreases |ps|
  {
    hide EscapeLength, Utf8, CodeUnit, Combine;
    if ps != [] {
      var p, rest := ps[0], AllWritten(ps[1..]);
      if p.Literal? {
        assert s[i] == s[i..][0] && s[i + 1..] == s[i..][1..] == rest;
        PiecesAreDecoded(s, i + 1, ps[1..]);
      } else {
        PieceLength(s, i, p, rest);
        var n := |Written(p)|;
        PiecesAreDecoded(s, i + n, ps[1..]);
        if p.Escaped? { EscapesAre(p.c); } else { UnicodeIsDecoded(s, i, ps); }
      }
    }
  }

  lemma {:induction false} UnicodeIsDecoded(s: string, i: nat, ps: seq<Piece>)
    requires i <= |s| && s[i..] == AllWritten(ps) && GoodPieces(ps) && ps != [] && ps[0].Unicode?
    requires i + 6 <= |s| && Decoded(s, i + 6) == Meaning(ps[1..])
    ensures Decoded(s, i) == Meaning(ps)
    decreases |ps|, 0
  {
    hide Utf8, CodeUnit, Combine;
    var d, tail := ps[0].digits, ps[1..];
    PieceLength(s, i, ps[0], AllWritten(tail));
    UnitIs(s, i, d);
    if HighSurrogate(CodeUnit(d)) {
      NextUnit(s, i + 6, tail);
      if tail != [] && tail[0].Unicode? {
        PieceLength(s, i + 6, tail[0], AllWritten(tail[1..]));
        assert tail[1..] == ps[2..];
        PiecesAreDecoded(s, i + 12, ps[2..]);
      }
    }
  }

  /** The next escape is a unit exactly if the next piece is. */
  lemma NextUnit(s: string, i: nat, ps: seq<Piece>)
    requires i <= |s| && s[i..] == AllWritten(ps) && GoodPieces(ps)
    ensures i < |s| && s[i] == '\\' && EscapeLength(s, i) == 6 <==> ps != [] && ps[0].Unicode?
    ensures ps != [] && ps[0].Unicode? ==> EscapeLength(s, i) == 6 && Unit(s, i) == CodeUnit(ps[0].digits)
  {
    hide CodeUnit;
    if ps != [] {
      var p, rest := ps[0], AllWritten(ps[1..]);
      assert i < |s| && s[i] == s[i..][0] == Written(p)[0];
      if !p.Literal? {
        PieceLength(s, i, p, rest);
        if p.Unicode? { UnitIs(s, i, p.digits); }
      }
    }
  }

  /** The scanner accepts exactly what is written in pieces. */
  lemma {:induction false} PiecesAreABody(ps: seq<Piece>)
    requires GoodPieces(ps)
    ensures StringBody(AllWritten(ps))
    ensures '\\' in AllWritten(ps) <==> exists i :: 0 <= i < |ps| && !ps[i].Literal?
    decreases |ps|
  {
    hide EscapeLength;
    if ps != [] {
      var t, p, rest := AllWritten(ps), ps[0], AllWritten(ps[1..]);
      PiecesAreABody(ps[1..]);
      assert forall i :: 0 <= i < |ps[1..]| ==> ps[1..][i] == ps[i + 1];
      assert t[0] == Written(p)[0];
      if p.Literal? {
        assert t[1..] == rest && t == [p.c] + rest;
        assert forall i :: 0 <= i < |ps| && !ps[i].Literal? ==> i > 0 && !ps[1..][i - 1].Literal?;
      } else {
        assert t[0..] == t;
        PieceLength(t, 0, p, rest);
      }
    }
  }

  lemma {:induction false} BodyIsPieces(t: string) returns (ps: seq<Piece>)
    requires StringBody(t)
    ensures GoodPieces(ps) && AllWritten(ps) == t
    decreases |t|
  {
    if t == [] {
      ps := [];
    } else {
      var p, n := if t[0] != '\\' then Literal(t[0]) else if EscapeLength(t, 0) == 2 then Escaped(t[1]) else Unicode(t[2..6]),
                  if t[0] != '\\' then 1 else EscapeLength(t, 0);
      FirstPieceIsGood(t);
      var tail := BodyIsPieces(t[n..]);
      ps := [p] + tail;
      assert ps[1..] == tail && t == t[..n] + t[n..];
    }
  }

  lemma FirstPieceIsGood(t: string)
    requires t != [] && StringBody(t)
    ensures t[0] != '\\' ==> GoodPiece(Literal(t[0]))
    ensures t[0] == '\\' && EscapeLength(t, 0) == 2 ==> GoodPiece(Escaped(t[1])) && t[..2] == Written(Escaped(t[1]))
    ensures t[0] == '\\' && EscapeLength(t, 0) != 2 ==>
      EscapeLength(t, 0) == 6 && GoodPiece(Unicode(t[2..6])) && t[..6] == Written(Unicode(t[2..6]))
  {
    hide StringBody;
    assert t[0] == '\\' ==> EscapeLength(t, 0) > 0 by { FirstOfBody(t); }
    assert t[0] != '\\' ==> IsPlain(t[0]) by { FirstOfBody(t); }
    if t[0] == '\\' {
      EscapesAre(t[1]);
      if EscapeLength(t, 0) == 6 {
        var d := t[2..6];
        HexDigitIs(d[0]);
        HexDigitIs(d[1]);
        HexDigitIs(d[2]);
        HexDigitIs(d[3]);
        assert t[..6] == ['\\', 'u'] + d;
      }
    }
  }

  lemma FirstOfBody(t: string)
    requires t != [] && StringBody(t)
    ensures t[0] == '\\' ==> EscapeLength(t, 0) > 0
    ensures t[0] != '\\' ==> IsPlain(t[0])
  {
    hide EscapeLength;
  }
}
