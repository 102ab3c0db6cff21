/** Printing a JSON tree, and the round trip through the parser. */
module JsonPrinter {
  import opened Text
  import opened JsonLexing
  import opened JsonStrings
  import opened JsonTree

  // ---- the printer as a function

  function EscapeChar(c: char): string {
    match c
    case '\"' => "\\\""
    case '\\' => "\\\\"
    case '\n' => "\\n"
    case '\r' => "\\r"
    case '\t' => "\\t"
    case _ => if c < ' ' then ControlEscape(c) else [c]
  }

  /** `\u00XX` in lower case. */
  function ControlEscape(c: char): string
    requires c < ' '
  {
    ['\\', 'u', '0', '0', DigitChar(c as int / 16), DigitChar(c as int % 16)]
  }

  function Escape(t: string): string { if t == [] then [] else EscapeChar(t[0]) + Escape(t[1..]) }

  function Quote(t: string): string { "\"" + Escape(t) + "\"" }

  function Print(v: JsonValue): string {
    match v
    case JNull => "null"
    case JBool(b) => if b then "true" else "false"
    case JText(t) => Quote(t)
    case JArray(vs) => if vs == [] then "[]" else "[" + Print(vs[0]) + PrintElements(vs[1..])
    case JObject(ms) => PrintObject(ms)
  }

  /** The elements after the first, each with its comma, and the closing bracket. */
  function PrintElements(vs: seq<JsonValue>): string {
    if vs == [] then "]" else "," + Print(vs[0]) + PrintElements(vs[1..])
  }

  function PrintObject(ms: seq<Member>): string {
    if ms == [] then "{}" else "{" + PrintMember(ms[0]) + PrintMembers(ms[1..])
  }

  function PrintMember(m: Member): string { Quote(m.key) + ":" + Print(m.value) }

  function PrintMembers(ms: seq<Member>): string {
    if ms == [] then "}" else "," + PrintMember(ms[0]) + PrintMembers(ms[1..])
  }

  // ---- the printer as the source runs it

  method JsonQuote(t: string) returns (out: string)
    ensures out == Quote(t)
  {
    out := "\"";
    assert t[0..] == t;
    for i := 0 to |t|
      invariant out + Escape(t[i..]) == "\"" + Escape(t)
    {
      assert t[i..][1..] == t[i + 1..];
      assert out + (EscapeChar(t[i]) + Escape(t[i + 1..])) == out + EscapeChar(t[i]) + Escape(t[i + 1..]);
      out := out + EscapeChar(t[i]);
    }
    out := out + "\"";
  }

  method ToJsonString(v: JsonValue) returns (out: string)
    ensures out == Print(v)
    decreases v, 1
  {
    match v
    case JNull => return "null";
    case JBool(b) => return if b then "true" else "false";
    case JText(t) => out := JsonQuote(t);
    case JArray(vs) => out := ArrayToString(vs);
    case JObject(ms) => out := ObjectToString(ms);
  }

  lemma JoinThree(a: string, b: string, c: string, d: string)
    ensures a + b + c + d == a + (b + c + d)
  {}

  method ArrayToString(vs: seq<JsonValue>) returns (out: string)
    ensures out == Print(JArray(vs))
    decreases vs, 0
  {
    out := "[";
    for i := 0 to |vs|
      invariant i == 0 ==> out == "["
      invariant i > 0 ==> out + PrintElements(vs[i..]) == Print(JArray(vs))
    {
      var element := ToJsonString(vs[i]);
      assert vs[i..][1..] == vs[i + 1..];
      ghost var before := out;
      out := out + (if i > 0 then "," else "") + element;
      if i > 0 { JoinThree(before, ",", element, PrintElements(vs[i + 1..])); }
    }
    out := out + "]";
  }

  method MemberToString(m: Member) returns (out: string)
    ensures out == PrintMember(m)
    decreases m, 0
  {
    out := JsonQuote(m.key);
    var value := ToJsonString(m.value);
    out := out + ":" + value;
  }

  method ObjectToString(ms: seq<Member>) returns (out: string)
    ensures out == PrintObject(ms)
    decreases ms, 0
  {
    hide PrintMember;
    out := "{";
    for i := 0 to |ms|
      invariant i == 0 ==> out == "{"
      invariant i > 0 ==> out + PrintMembers(ms[i..]) == PrintObject(ms)
    {
      var member := MemberToString(ms[i]);
      assert ms[i..][1..] == ms[i + 1..];
      out := out + (if i > 0 then "," else "") + member;
    }
    out := out + "}";
  }

  // ---- quoted strings read back

  lemma ControlEscapeUnit(raw: string, i: nat, c: char)
    requires c < ' ' && StartsWith(raw, i, ControlEscape(c))
    ensures EscapeLength(raw, i) == 6 && Unit(raw, i) == c as int
  {
    var e := ControlEscape(c);
    SliceOfSlice(raw, i, i + 6, 2, 6);
    assert raw[i + 1] == e[1] == 'u';
    var d := raw[i + 2..i + 6];
    assert d == e[2..6] == ['0', '0', e[4], e[5]];
    FourDigits(d);
  }

  lemma FourDigits(d: string)
    requires |d| == 4 && Numeral(d, 16)
    ensures Value(d, 16) == ((DigitOf(d[0]) * 16 + DigitOf(d[1])) * 16 + DigitOf(d[2])) * 16 + DigitOf(d[3])
  {
    var a, b, c := d[..3], d[..2], d[..1];
    assert a[..2] == b && b[..1] == c && c[..0] == [];
    assert Value(c, 16) == DigitOf(d[0]);
    assert Value(b, 16) == Value(c, 16) * 16 + DigitOf(d[1]);
    assert Value(a, 16) == Value(b, 16) * 16 + DigitOf(d[2]);
  }

  /** One escaped character, wherever it stands in a raw string. */
  lemma EscapeCharStep(raw: string, i: nat, c: char)
    requires StartsWith(raw, i, EscapeChar(c))
    ensures i < |raw|
    ensures Decoded(raw, i) == Prepend([c], Decoded(raw, i + |EscapeChar(c)|))
    ensures StringBody(raw[i..]) == StringBody(raw[i + |EscapeChar(c)|..])
    ensures '\\' !in EscapeChar(c) ==> EscapeChar(c) == [c]
  {
    var e := EscapeChar(c);
    var t := raw[i..];
    assert forall k :: 0 <= k < |e| ==> raw[i + k] == e[k] == t[k];
    assert t[|e|..] == raw[i + |e|..];
    if e[0] == '\\' {
      EscapeInside(raw, i, |raw|);
      if |e| == 6 { ControlEscapeUnit(raw, i, c); }
      assert EscapeLength(t, 0) == EscapeLength(raw, i) == |e|;
    } else {
      assert e == [c] && IsPlain(c);
    }
  }

  lemma {:induction false} EscapeReadsBack(pre: string, t: string)
    ensures Decoded(pre + Escape(t), |pre|) == Some(t)
    ensures StringBody((pre + Escape(t))[|pre|..])
    decreases t
  {
    if t != [] {
      EscapeReadsBack(pre + EscapeChar(t[0]), t[1..]);
      EscapeReadsBackStep(pre, t[0], Escape(t[1..]), t[1..]);
      assert [t[0]] + t[1..] == t;
    }
  }

  lemma EscapeReadsBackStep(pre: string, c: char, rest: string, tail: string)
    requires var mid := pre + EscapeChar(c); Decoded(mid + rest, |mid|) == Some(tail) && StringBody((mid + rest)[|mid|..])
    ensures var raw := pre + (EscapeChar(c) + rest); Decoded(raw, |pre|) == Some([c] + tail) && StringBody(raw[|pre|..])
  {
    hide Decoded, StringBody, EscapeChar;
    var e := EscapeChar(c);
    var raw := pre + (e + rest);
    assert raw == pre + e + rest;
    assert raw[|pre|..|pre| + |e|] == e;
    EscapeCharStep(raw, |pre|, c);
  }

  lemma {:induction false} PlainIsItsOwnEscape(t: string)
    ensures '\\' !in Escape(t) ==> Escape(t) == t
  {
    if t != [] && '\\' !in Escape(t) {
      var e, rest := EscapeChar(t[0]), Escape(t[1..]);
      assert forall c :: c in e || c in rest ==> c in e + rest;
      PlainIsItsOwnEscape(t[1..]);
      assert e[0] in e;
      assert e == [t[0]];
    }
  }

  /** A quote, a string body and a quote make one string token. */
  lemma StringLexes(s: string, p: nat, raw: string)
    requires StringBody(raw) && p + |raw| + 2 <= |s|
    requires s[p] == '\"' && s[p + 1..p + 1 + |raw|] == raw && s[p + 1 + |raw|] == '\"'
    ensures Lex(s, p) == Lexed(Token(String, raw, '\\' in raw), p + |raw| + 2)
  {
    hide ScanString, StringBody, NumberEnd;
    ScanStringFindsTheQuote(s, p + 1, false, p + 1 + |raw|);
  }

  lemma QuotedLexes(s: string, p: nat, t: string)
    requires StartsWith(s, p, Quote(t))
    ensures var r := Lex(s, p);
      r.Lexed? && r.next == p + |Quote(t)| && r.token.kind == String && StringValue(r.token) == Some(t)
  {
    hide Decoded, StringBody, Escape, Lex;
    var raw := Escape(t);
    assert StringBody(raw) && Decoded(raw, 0) == Some(t) by {
      EscapeReadsBack("", t);
      assert "" + raw == raw && raw[0..] == raw;
    }
    PlainIsItsOwnEscape(t);
    assert s[p] == '\"' && s[p + 1..p + 1 + |raw|] == raw && s[p + 1 + |raw|] == '\"' by {
      HasParts(s, p, "\"" + raw, "\"");
      HasParts(s, p, "\"", raw);
      assert s[p] == s[p..p + 1][0];
      assert s[p + 1 + |raw|] == s[p + 1 + |raw|..p + 2 + |raw|][0];
    }
    StringLexes(s, p, raw);
  }

  /** A punctuator is one token, and the text after it starts right behind. */
  lemma PunctuatorLexes(s: string, p: nat, c: char, rest: string)
    requires StartsWith(s, p, [c] + rest) && Punctuator(c).Some?
    ensures p < |s| && Lex(s, p) == Lexed(Token(Punctuator(c).value, [c], false), p + 1)
    ensures StartsWith(s, p + 1, rest)
  {
    HasParts(s, p, [c], rest);
    assert s[p] == s[p..p + 1][0];
  }

  // ---- whole values read back

  ghost predicate Sorted(ms: seq<Member>) { forall i, j :: 0 <= i < j < |ms| ==> Less(ms[i].key, ms[j].key) }

  /** Values a flat map and the depth limit can hold: keys strictly increasing, nesting at most `room`. */
  ghost predicate Printable(v: JsonValue, room: nat) {
    match v
    case JArray(vs) => room > 0 && forall i :: 0 <= i < |vs| ==> Printable(vs[i], room - 1)
    case JObject(ms) => room > 0 && Sorted(ms) && forall i :: 0 <= i < |ms| ==> Printable(ms[i].value, room - 1)
    case _ => true
  }

  function EmplaceAll(acc: seq<Member>, ms: seq<Member>): seq<Member>
    decreases ms
  {
    if ms == [] then acc else EmplaceAll(Emplace(acc, ms[0]), ms[1..])
  }

  /** The parser reads `v` at `p` and stops right after its text. */
  predicate ReadsAt(s: string, p: nat, v: JsonValue, depth: nat) {
    && p <= |s|
    && var r := Lex(s, p);
       && r.Lexed? && r.token.kind != RightBracket && r.token.kind != End
       && ParseValue(s, r.token, r.next, depth) == Parsed(v, p + |Print(v)|)
  }

  lemma {:induction false} ValueReadsBack(s: string, p: nat, v: JsonValue, depth: nat)
    requires depth <= MAX_DEPTH && StartsWith(s, p, Print(v)) && Printable(v, MAX_DEPTH - depth)
    ensures ReadsAt(s, p, v, depth)
    decreases v, 1
  {
    hide Lex;
    match v
    case JNull => WordLexes(s, p, "null", Null);
    case JBool(b) => if b { WordLexes(s, p, "true", True); } else { WordLexes(s, p, "false", False); }
    case JText(t) => QuotedLexes(s, p, t);
    case JArray(vs) =>
      ArrayReadsBack(s, p, vs, depth);
    case JObject(ms) =>
      ObjectReadsBack(s, p, ms, depth);
      EmplaceSorted(ms, 0);
      assert ms[0..] == ms && ms[..0] == [];
  }

  lemma WordLexes(s: string, p: nat, word: string, kind: TokenKind)
    requires StartsWith(s, p, word)
    requires (word == "true" && kind == True) || (word == "false" && kind == False) || (word == "null" && kind == Null)
    ensures Lex(s, p) == Lexed(Token(kind, word, false), p + |word|)
  {
    assert s[p] == word[0];
    assert StartsWith(s, p, "true") ==> s[p] == "true"[0];
    assert StartsWith(s, p, "false") ==> s[p] == "false"[0];
  }

  lemma {:induction false} ArrayReadsBack(s: string, p: nat, vs: seq<JsonValue>, depth: nat)
    requires depth < MAX_DEPTH && StartsWith(s, p, Print(JArray(vs)))
    requires forall i :: 0 <= i < |vs| ==> Printable(vs[i], MAX_DEPTH - depth - 1)
    ensures p < |s| && Lex(s, p) == Lexed(Token(LeftBracket, "[", false), p + 1)
    ensures ParseArray(s, p + 1, depth + 1) == Parsed(vs, p + |Print(JArray(vs))|)
    decreases vs, 2
  {
    hide Lex, ParseElements, Printable, StartsWith;
    var inner := if vs == [] then "]" else Print(vs[0]) + PrintElements(vs[1..]);
    assert Print(JArray(vs)) == ['['] + inner;
    PunctuatorLexes(s, p, '[', inner);
    if vs == [] {
      assert inner == [']'] + "";
      PunctuatorLexes(s, p + 1, ']', "");
    } else {
      ElementsReadBack(s, p + 1, vs, depth + 1, []);
      assert [] + vs == vs;
    }
  }

  lemma {:induction false} ElementsReadBack(s: string, p: nat, vs: seq<JsonValue>, depth: nat, acc: seq<JsonValue>)
    requires vs != [] && depth <= MAX_DEPTH && StartsWith(s, p, Print(vs[0]) + PrintElements(vs[1..]))
    requires forall i :: 0 <= i < |vs| ==> Printable(vs[i], MAX_DEPTH - depth)
    ensures ReadsAt(s, p, vs[0], depth)
    ensures var r := Lex(s, p);
      ParseElements(s, r.token, r.next, depth, acc) == Parsed(acc + vs, p + |Print(vs[0]) + PrintElements(vs[1..])|)
    decreases vs, 0
  {
    hide Lex, ParseValue, Print, Printable, StartsWith;
    var rest := vs[1..];
    HasParts(s, p, Print(vs[0]), PrintElements(rest));
    ValueReadsBack(s, p, vs[0], depth);
    var q := p + |Print(vs[0])|;
    if rest == [] {
      assert PrintElements(rest) == [']'] + "";
      PunctuatorLexes(s, q, ']', "");
      assert acc + vs == acc + [vs[0]];
    } else {
      var inner := Print(rest[0]) + PrintElements(rest[1..]);
      assert PrintElements(rest) == [','] + inner;
      PunctuatorLexes(s, q, ',', inner);
      ElementsReadBack(s, q + 1, rest, depth, acc + [vs[0]]);
      assert acc + vs == acc + [vs[0]] + rest;
    }
  }

  /** Any member list, in any order and with duplicates, reads back as the flat map it builds. */
  lemma {:induction false} ObjectReadsBack(s: string, p: nat, ms: seq<Member>, depth: nat)
    requires depth < MAX_DEPTH && StartsWith(s, p, PrintObject(ms))
    requires forall i :: 0 <= i < |ms| ==> Printable(ms[i].value, MAX_DEPTH - depth - 1)
    ensures p < |s| && Lex(s, p) == Lexed(Token(LeftBrace, "{", false), p + 1)
    ensures ParseObject(s, p + 1, depth + 1) == Parsed(EmplaceAll([], ms), p + |PrintObject(ms)|)
    decreases ms, 2
  {
    hide Lex, ParseMembers, PrintMember, Printable, StartsWith;
    var inner := if ms == [] then "}" else PrintMember(ms[0]) + PrintMembers(ms[1..]);
    assert PrintObject(ms) == ['{'] + inner;
    PunctuatorLexes(s, p, '{', inner);
    if ms == [] {
      assert inner == ['}'] + "";
      PunctuatorLexes(s, p + 1, '}', "");
    } else {
      MembersReadBack(s, p + 1, ms, depth + 1, []);
    }
  }

  lemma {:induction false} MembersReadBack(s: string, p: nat, ms: seq<Member>, depth: nat, acc: seq<Member>)
    requires ms != [] && depth <= MAX_DEPTH && StartsWith(s, p, PrintMember(ms[0]) + PrintMembers(ms[1..]))
    requires forall i :: 0 <= i < |ms| ==> Printable(ms[i].value, MAX_DEPTH - depth)
    ensures p <= |s|
    ensures var r := Lex(s, p);
      && r.Lexed? && r.token.kind == String
      && ParseMembers(s, r.token, r.next, depth, acc)
         == Parsed(EmplaceAll(acc, ms), p + |PrintMember(ms[0]) + PrintMembers(ms[1..])|)
    decreases ms, 1
  {
    hide Lex, Emplace, ParseValue, StringValue, PrintMember, Printable, StartsWith;
    var m, rest := ms[0], ms[1..];
    HasParts(s, p, PrintMember(m), PrintMembers(rest));
    MemberReadsBack(s, p, m, depth);
    var q := p + |PrintMember(m)|;
    if rest == [] {
      assert PrintMembers(rest) == ['}'] + "";
      PunctuatorLexes(s, q, '}', "");
    } else {
      var inner := PrintMember(rest[0]) + PrintMembers(rest[1..]);
      assert PrintMembers(rest) == [','] + inner;
      PunctuatorLexes(s, q, ',', inner);
      MembersReadBack(s, q + 1, rest, depth, Emplace(acc, m));
    }
  }

  lemma {:induction false} MemberReadsBack(s: string, p: nat, m: Member, depth: nat)
    requires depth <= MAX_DEPTH && StartsWith(s, p, PrintMember(m)) && Printable(m.value, MAX_DEPTH - depth)
    ensures p <= |s|
    ensures var r := Lex(s, p);
      && r.Lexed? && r.token.kind == String && StringValue(r.token) == Some(m.key)
      && var first := AfterColon(s, r.next);
         first.Lexed? && ParseValue(s, first.token, first.next, depth) == Parsed(m.value, p + |PrintMember(m)|)
    decreases m, 0
  {
    hide Lex, StringValue, ParseValue, Quote, Print, StartsWith;
    var tail := [':'] + Print(m.value);
    assert PrintMember(m) == Quote(m.key) + tail;
    HasParts(s, p, Quote(m.key), tail);
    QuotedLexes(s, p, m.key);
    PunctuatorLexes(s, p + |Quote(m.key)|, ':', Print(m.value));
    ValueReadsBack(s, p + |Quote(m.key)| + 1, m.value, depth);
  }

  // ---- key order

  lemma {:induction false} LessIsAsymmetric(a: string, b: string)
    requires Less(a, b)
    ensures !Less(b, a) && a != b
  {
    if a != [] && a[0] == b[0] { LessIsAsymmetric(a[1..], b[1..]); }
  }

  lemma {:induction false} LessIsTransitive(a: string, b: string, c: string)
    requires Less(a, b) && Less(b, c)
    ensures Less(a, c)
  {
    if a != [] && a[0] == b[0] == c[0] { LessIsTransitive(a[1..], b[1..], c[1..]); }
  }

  lemma {:induction false} LessIsTotal(a: string, b: string)
    ensures a == b || Less(a, b) || Less(b, a)
  {
    if a != [] && b != [] && a[0] == b[0] {
      LessIsTotal(a[1..], b[1..]);
      assert a == [a[0]] + a[1..] && b == [b[0]] + b[1..];
    }
  }

  /** A key above all present ones goes to the end. */
  lemma {:induction false} EmplaceLargest(ms: seq<Member>, m: Member)
    requires forall i :: 0 <= i < |ms| ==> Less(ms[i].key, m.key)
    ensures Emplace(ms, m) == ms + [m] && Find(ms, m.key).None?
  {
    if ms != [] {
      LessIsAsymmetric(ms[0].key, m.key);
      EmplaceLargest(ms[1..], m);
      assert [ms[0]] + (ms[1..] + [m]) == ms + [m];
    }
  }

  lemma {:induction false} EmplaceSorted(ms: seq<Member>, k: nat)
    requires Sorted(ms) && k <= |ms|
    ensures EmplaceAll(ms[..k], ms[k..]) == ms
    decreases |ms| - k
  {
    if k == |ms| {
      assert ms[..k] == ms;
    } else {
      EmplaceLargest(ms[..k], ms[k]);
      assert ms[..k] + [ms[k]] == ms[..k + 1];
      EmplaceSorted(ms, k + 1);
      assert ms[k..][1..] == ms[k + 1..];
    }
  }

  lemma {:induction false} InsertKeepsSorted(ms: seq<Member>, m: Member)
    requires Sorted(ms) && Find(ms, m.key).None?
    ensures Sorted(Insert(ms, m))
    ensures forall x :: x in Insert(ms, m) <==> x in ms || x == m
  {
    if ms != [] {
      if Less(m.key, ms[0].key) {
        forall j | 0 < j < |ms| ensures Less(m.key, ms[j].key) {
          LessIsTransitive(m.key, ms[0].key, ms[j].key);
        }
      } else {
        LessIsTotal(m.key, ms[0].key);
        InsertKeepsSorted(ms[1..], m);
        var rest := Insert(ms[1..], m);
        forall j | 0 <= j < |rest| ensures Less(ms[0].key, rest[j].key) {
          assert rest[j] in ms[1..] || rest[j] == m;
        }
      }
    }
  }

  // ---- everything the parser returns is printable

  ghost predicate AllPrintable(ms: seq<Member>, room: nat) {
    Sorted(ms) && forall i :: 0 <= i < |ms| ==> Printable(ms[i].value, room)
  }

  lemma {:induction false} ParsedValuePrintable(s: string, token: Token, pos: nat, depth: nat)
    requires pos <= |s| && depth <= MAX_DEPTH
    ensures var r := ParseValue(s, token, pos, depth); r.Parsed? ==> Printable(r.value, MAX_DEPTH - depth)
    decreases |s| - pos, 3
  {
    hide Lex;
    if token.kind == LeftBrace && depth < MAX_DEPTH {
      ParsedObjectPrintable(s, pos, depth + 1);
    } else if token.kind == LeftBracket && depth < MAX_DEPTH {
      ParsedArrayPrintable(s, pos, depth + 1);
    }
  }

  lemma {:induction false} ParsedObjectPrintable(s: string, pos: nat, depth: nat)
    requires pos <= |s| && depth <= MAX_DEPTH
    ensures var r := ParseObject(s, pos, depth); r.Parsed? ==> AllPrintable(r.value, MAX_DEPTH - depth)
    decreases |s| - pos, 2
  {
    hide Lex;
    var t := Lex(s, pos);
    if t.Lexed? && t.token.kind != RightBrace { ParsedMembersPrintable(s, t.token, t.next, depth, []); }
  }

  lemma {:induction false} ParsedArrayPrintable(s: string, pos: nat, depth: nat)
    requires pos <= |s| && depth <= MAX_DEPTH
    ensures var r := ParseArray(s, pos, depth);
      r.Parsed? ==> forall i :: 0 <= i < |r.value| ==> Printable(r.value[i], MAX_DEPTH - depth)
    decreases |s| - pos, 2
  {
    hide Lex;
    var t := Lex(s, pos);
    if t.Lexed? && t.token.kind != RightBracket && t.token.kind != End {
      ParsedElementsPrintable(s, t.token, t.next, depth, []);
    }
  }

  lemma EmplaceKeepsPrintable(ms: seq<Member>, m: Member, room: nat)
    requires AllPrintable(ms, room) && Printable(m.value, room)
    ensures AllPrintable(Emplace(ms, m), room)
  {
    if Find(ms, m.key).None? {
      InsertKeepsSorted(ms, m);
      var r := Insert(ms, m);
      forall i | 0 <= i < |r| ensures Printable(r[i].value, room) { assert r[i] in r; }
    }
  }

  lemma {:induction false} ParsedMembersPrintable(s: string, token: Token, pos: nat, depth: nat, ms: seq<Member>)
    requires pos <= |s| && depth <= MAX_DEPTH && AllPrintable(ms, MAX_DEPTH - depth)
    ensures var r := ParseMembers(s, token, pos, depth, ms); r.Parsed? ==> AllPrintable(r.value, MAX_DEPTH - depth)
    decreases |s| - pos, 1
  {
    hide Lex, ParseValue, StringValue, Emplace, AllPrintable, Printable;
    if ParseMembers(s, token, pos, depth, ms).Parsed? {
      var first := AfterColon(s, pos);
      ParsedValuePrintable(s, first.token, first.next, depth);
      var v := ParseValue(s, first.token, first.next, depth);
      var m := Member(StringValue(token).value, v.value);
      EmplaceKeepsPrintable(ms, m, MAX_DEPTH - depth);
      var sep := Separator(s, v.next, RightBrace);
      if sep.More? { ParsedMembersPrintable(s, sep.token, sep.next, depth, Emplace(ms, m)); }
    }
  }

  lemma {:induction false} ParsedElementsPrintable(s: string, token: Token, pos: nat, depth: nat, vs: seq<JsonValue>)
    requires pos <= |s| && depth <= MAX_DEPTH
    requires forall i :: 0 <= i < |vs| ==> Printable(vs[i], MAX_DEPTH - depth)
    ensures var r := ParseElements(s, token, pos, depth, vs);
      r.Parsed? ==> forall i :: 0 <= i < |r.value| ==> Printable(r.value[i], MAX_DEPTH - depth)
    decreases |s| - pos, 4
  {
    hide Lex;
    ParsedValuePrintable(s, token, pos, depth);
    var v := ParseValue(s, token, pos, depth);
    if v.Parsed? {
      var sep := Separator(s, v.next, RightBracket);
      if sep.More? { ParsedElementsPrintable(s, sep.token, sep.next, depth, vs + [v.value]); }
    }
  }

  // ---- the main results

  /** A value survives print and parse exactly when a flat map and the depth limit can hold it. */
  lemma PrintThenParse(v: JsonValue)
    ensures ParseJson(Print(v)) == Some(v) <==> Printable(v, MAX_DEPTH)
  {
    var s := Print(v);
    if Printable(v, MAX_DEPTH) {
      assert s[0..|s|] == s;
      ValueReadsBack(s, 0, v, 0);
    }
    if ParseJson(s).Some? { ParsedIsPrintable(s); }
  }

  /** Any printed member list, whatever its order and duplicates, parses to the flat map it builds. */
  lemma PrintedObjectParses(ms: seq<Member>)
    requires forall i :: 0 <= i < |ms| ==> Printable(ms[i].value, MAX_DEPTH - 1)
    ensures ParseJson(PrintObject(ms)) == Some(JObject(EmplaceAll([], ms)))
  {
    hide Lex, ParseObject, EmplaceAll, PrintObject, Printable;
    var s := PrintObject(ms);
    assert s[0..|s|] == s;
    ObjectReadsBack(s, 0, ms, 0);
    EndLexes(s);
  }

  lemma EndLexes(s: string)
    ensures Lex(s, |s|) == Lexed(Token(End, "", false), |s|)
  {}

  lemma ParsedIsPrintable(s: string)
    ensures ParseJson(s).Some? ==> Printable(ParseJson(s).value, MAX_DEPTH)
  {
    var first := Lex(s, 0);
    if first.Lexed? { ParsedValuePrintable(s, first.token, first.next, 0); }
  }

  /** On everything the parser accepts, print and parse is stable. */
  lemma ParsePrintParse(s: string)
    ensures var v := ParseJson(s); v.Some? ==> ParseJson(Print(v.value)) == v
  {
    ParsedIsPrintable(s);
    if ParseJson(s).Some? { PrintThenParse(ParseJson(s).value); }
  }
}
