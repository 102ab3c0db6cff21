/** Decoding of the escapes inside a string token to UTF-8. */
module JsonStrings {
  import opened Text
  import opened JsonLexing

  function SimpleEscape(c: char): char {
    match c
    case 'b' => '\U{08}'
    case 'f' => '\U{0C}'
    case 'n' => '\n'
    case 'r' => '\r'
    case 't' => '\t'
    case _ => c
  }

  predicate HighSurrogate(u: nat) { 0xD800 <= u <= 0xDBFF }
  predicate LowSurrogate(u: nat) { 0xDC00 <= u <= 0xDFFF }

  function Combine(high: nat, low: nat): (cp: nat)
    requires HighSurrogate(high) && LowSurrogate(low)
    ensures 0x10000 <= cp <= 0x10FFFF
  {
    0x10000 + (high - 0xD800) * 0x400 + (low - 0xDC00)
  }

  /** Unicode scalar values: every code point that is not a surrogate. */
  predicate Scalar(cp: nat) { cp <= 0x10FFFF && !HighSurrogate(cp) && !LowSurrogate(cp) }

  /** One scalar value as UTF-8 bytes; the source's shifts and masks as division and remainder. */
  function Utf8(cp: nat): (t: string)
    requires cp <= 0x10FFFF
    ensures 1 <= |t| <= 4
  {
    if cp < 0x80 then [cp as char]
    else if cp < 0x800 then [(0xC0 + cp / 0x40) as char, Tail(cp)]
    else if cp < 0x10000 then [(0xE0 + cp / 0x1000) as char, Tail(cp / 0x40), Tail(cp)]
    else [(0xF0 + cp / 0x40000) as char, Tail(cp / 0x1000), Tail(cp / 0x40), Tail(cp)]
  }

  function Tail(cp: nat): char { (0x80 + cp % 0x40) as char }

  /** The 16-bit unit written by the `\uXXXX` escape at `i`. */
  function Unit(raw: string, i: nat): (u: nat)
    requires EscapeLength(raw, i) == 6
  {
    Value(raw[i + 2..i + 6], 16)
  }

  function Prepend(t: string, r: Option<string>): Option<string> {
    match r
    case None => None
    case Some(u) => Some(t + u)
  }

  lemma PrependAssociates(t: string, u: string, r: Option<string>)
    ensures Prepend(t, Prepend(u, r)) == Prepend(t + u, r)
  {
    if r.Some? { assert t + (u + r.value) == t + u + r.value; }
  }

  /** The escapes of `raw` from position `i` on, decoded; `None` where the source reports an error. */
  function Decoded(raw: string, i: nat): Option<string>
    requires i <= |raw|
    decreases |raw| - i
  {
    if i == |raw| then Some("")
    else if raw[i] != '\\' then Prepend([raw[i]], Decoded(raw, i + 1))
    else if EscapeLength(raw, i) == 2 then Prepend([SimpleEscape(raw[i + 1])], Decoded(raw, i + 2))
    else if EscapeLength(raw, i) != 6 || LowSurrogate(Unit(raw, i)) then None
    else if !HighSurrogate(Unit(raw, i)) then
      UnitBound(raw, i);
      Prepend(Utf8(Unit(raw, i)), Decoded(raw, i + 6))
    else if LowFollows(raw, i) then
      Prepend(Utf8(Combine(Unit(raw, i), Unit(raw, i + 6))), Decoded(raw, i + 12))
    else None
  }

  predicate LowFollows(raw: string, i: nat) 
    requires EscapeLength(raw, i) == 6
  {
    i + 6 < |raw| && raw[i + 6] == '\\' && EscapeLength(raw, i + 6) == 6 && LowSurrogate(Unit(raw, i + 6))
  }

  lemma UnitBound(raw: string, i: nat)
    requires EscapeLength(raw, i) == 6
    ensures Unit(raw, i) <= 0xFFFF
  {
    ValueBound(raw[i + 2..i + 6], 16);
    assert Pow(16, 4) == 16 * (16 * (16 * (16 * Pow(16, 0))));
  }

  lemma BodySuffix(raw: string, i: nat)
    requires i < |raw| && StringBody(raw[i..])
    ensures raw[i] != '\\' ==> StringBody(raw[i + 1..])
    ensures raw[i] == '\\' ==> EscapeLength(raw, i) > 0 && StringBody(raw[i + EscapeLength(raw, i)..])
  {
    var t := raw[i..];
    if t[0] == '\\' {
      var n := EscapeLength(t, 0);
      assert i + 5 < |raw| ==> raw[i + 2..i + 6] == t[2..6];
      assert EscapeLength(raw, i) == n;
      assert t[n..] == raw[i + n..];
    } else {
      assert t[1..] == raw[i + 1..];
    }
  }

  /** The `\uXXXX` escape at `i`, with its partner if it is a high surrogate: its UTF-8 and the position after it. */
  method DecodeUnicode(raw: string, i: nat) returns (r: Option<(string, nat)>)
    requires i < |raw| && raw[i] == '\\' && EscapeLength(raw, i) == 6 && StringBody(raw[i + 6..])
    ensures r.None? ==> Decoded(raw, i).None?
    ensures r.Some? ==> i < r.value.1 <= |raw| && StringBody(raw[r.value.1..])
    ensures r.Some? ==> Decoded(raw, i) == Prepend(r.value.0, Decoded(raw, r.value.1))
  {
    var cp := Unit(raw, i);
    UnitBound(raw, i);
    if LowSurrogate(cp) { return None; }
    if !HighSurrogate(cp) { return Some((Utf8(cp), i + 6)); }
    var j := i + 6;
    if j + 6 > |raw| || raw[j] != '\\' || raw[j + 1] != 'u' { return None; }
    BodySuffix(raw, j);
    var low := Unit(raw, j);
    if !LowSurrogate(low) { return None; }
    return Some((Utf8(Combine(cp, low)), j + 6));
  }

  /** Requires text the lexer has validated, as the source's header says. The index expressions and
      slices here are all checked to be in bounds. */
  method DecodeJsonString(raw: string) returns (out: Option<string>)
    requires StringBody(raw)
    ensures out == Decoded(raw, 0)
  {
    var text := "";
    var i := 0;
    assert raw[0..] == raw;
    assert Decoded(raw, 0).Some? ==> "" + Decoded(raw, 0).value == Decoded(raw, 0).value;
    while i < |raw|
      invariant i <= |raw| && StringBody(raw[i..])
      invariant Decoded(raw, 0) == Prepend(text, Decoded(raw, i))
    {
      BodySuffix(raw, i);
      var piece, next := [raw[i]], i + 1;
      if raw[i] == '\\' {
        if raw[i + 1] == 'u' {
          var r := DecodeUnicode(raw, i);
          if r.None? { return None; }
          piece, next := r.value.0, r.value.1;
        } else {
          piece, next := [SimpleEscape(raw[i + 1])], i + 2;
        }
      }
      assert Decoded(raw, i) == Prepend(piece, Decoded(raw, next));
      PrependAssociates(text, piece, Decoded(raw, next));
      text, i := text + piece, next;
    }
    assert text + "" == text;
    return Some(text);
  }
}
