/** The order text does not escape what it inserts. Ticker and client id are read back exactly if they need
    no escaping. */
module OrderPathExact {
  import opened Text
  import opened JsonLexing
  import opened JsonNumbers
  import opened JsonStrings
  import opened JsonTree
  import opened JsonPrinter
  import opened KalshiMessages
  import opened OrderPath

  // ---- decoding never lengthens

  lemma {:induction false} DecodingShrinks(raw: string, i: nat)
    requires i <= |raw| && Decoded(raw, i).Some?
    ensures var u := Decoded(raw, i).value;
      |u| <= |raw| - i && ('\\' in raw[i..] ==> |u| < |raw| - i) && ('\\' !in raw[i..] ==> u == raw[i..])
    decreases |raw| - i
  {
    hide Utf8, Combine;
    if i < |raw| {
      if raw[i] != '\\' {
        DecodingShrinks(raw, i + 1);
        assert raw[i..] == [raw[i]] + raw[i + 1..];
      } else {
        assert raw[i..][0] == '\\';
        var n := if EscapeLength(raw, i) == 2 then 2 else if HighSurrogate(Unit(raw, i)) then 12 else 6;
        DecodingShrinks(raw, i + n);
      }
    }
  }

  /** A string body without a backslash is plain. */
  lemma {:induction false} BodyWithoutEscapesIsPlain(t: string)
    requires StringBody(t) && '\\' !in t
    ensures Plain(t)
    decreases t
  {
    if t != [] {
      assert t[0] in t;
      assert forall c :: c in t[1..] ==> c in t;
      BodyWithoutEscapesIsPlain(t[1..]);
      assert forall i :: 0 < i < |t| ==> t[i] == t[1..][i - 1];
    }
  }

  // ---- where a string that starts at `i` ends, if a quote stands at `end`

  /** An escape does not reach past a quote, except to escape it. */
  lemma EscapeMeetsTheQuote(s: string, i: nat, end: nat)
    requires i < end < |s| && s[end] == '\"' && EscapeLength(s, i) > 0
    ensures i + EscapeLength(s, i) <= end || (EscapeLength(s, i) == 2 && i + 1 == end)
  {
    if EscapeLength(s, i) == 6 {
      var d := s[i + 2..i + 6];
      assert forall k :: i + 2 <= k < i + 6 ==> s[k] == d[k - i - 2] && IsHex(d[k - i - 2]);
    }
  }

  lemma {:induction false} ScanMeetsTheQuote(s: string, i: nat, escapes: bool, end: nat)
    requires i <= end < |s| && s[end] == '\"'
    ensures var r := ScanString(s, i, escapes);
      r.Some? && r.value.0 > end ==>
        ScanString(s, end + 1, true).Some? && ScanString(s, end + 1, true).value.0 == r.value.0
    decreases end - i
  {
    if i < end && s[i] != '\"' && s[i] >= ' ' {
      if s[i] == '\\' {
        var n := EscapeLength(s, i);
        if n > 0 {
          EscapeMeetsTheQuote(s, i, end);
          if i + n <= end { ScanMeetsTheQuote(s, i + n, true, end); }
        }
      } else {
        ScanMeetsTheQuote(s, i + 1, escapes, end);
      }
    }
  }

  /** What follows an inserted text: the next member, which starts with an `s`, or the end of the object. */
  predicate Follows(s: string, end: nat) {
    || (end + 3 < |s| && s[end + 1] == ',' && s[end + 2] == '\"' && s[end + 3] == 's')
    || (end + 2 == |s| && s[end + 1] == '}')
  }

  /** A scan that runs past the inserted text ends where nothing can follow. */
  lemma OverrunIsBad(s: string, end: nat)
    requires end < |s| && s[end] == '\"' && Follows(s, end) && ScanString(s, end + 1, true).Some?
    ensures var q := ScanString(s, end + 1, true).value.0; Lex(s, q + 1).Bad?
  {
    if end + 2 == |s| {
      assert ScanString(s, end + 2, true).None?;
    } else {
      assert ScanString(s, end + 1, true) == ScanString(s, end + 2, true) == Some((end + 2, true));
      NotALexeme(s, end + 3);
    }
  }

  lemma NotALexeme(s: string, p: nat)
    requires p < |s| && s[p] == 's'
    ensures Lex(s, p).Bad?
  {
    NoWordStartsWithS(s, p);
    hide StartsWith, NumberEnd, ScanString;
  }

  lemma NoWordStartsWithS(s: string, p: nat)
    requires p < |s| && s[p] == 's'
    ensures !StartsWith(s, p, "true") && !StartsWith(s, p, "false") && !StartsWith(s, p, "null")
  {
    hide StartsWith;
    OtherHead(s, p, "true");
    OtherHead(s, p, "false");
    OtherHead(s, p, "null");
  }

  /** The string token at `v` does not mean `t` unless `t` is plain, or nothing valid follows it. */
  lemma TokenIsNotText(s: string, v: nat, t: string)
    requires StartsWith(s, v, "\"" + t + "\"") && Follows(s, v + 1 + |t|) && !Plain(t)
    ensures var r := Lex(s, v);
      r.Lexed? ==> r.token.kind == String && (StringValue(r.token) == Some(t) ==> Lex(s, r.next).Bad?)
  {
    var end := v + 1 + |t|;
    assert s[v] == '\"' && s[end] == '\"' && s[v + 1..end] == t by {
      assert "\"" + t + "\"" == "\"" + (t + "\"");
      HasParts(s, v, "\"", t + "\"");
      HasParts(s, v + 1, t, "\"");
      HeadAt(s, v, "\"");
      HeadAt(s, end, "\"");
    }
    QuotedTokenIsNotText(s, v, t);
  }

  lemma QuotedTokenIsNotText(s: string, v: nat, t: string)
    requires v + 1 + |t| < |s| && s[v] == '\"' && s[v + 1 + |t|] == '\"'
    requires Follows(s, v + 1 + |t|) && !Plain(t)
    ensures var r := Lex(s, v);
      r.Lexed? ==> r.token.kind == String && (StringValue(r.token) == Some(t) ==> Lex(s, r.next).Bad?)
  {
    var end := v + 1 + |t|;
    var scan := ScanString(s, v + 1, false);
    QuoteLexes(s, v);
    hide Lex, ScanString, StringValue, Follows, Plain;
    if scan.Some? {
      if scan.value.0 > end {
        ScanMeetsTheQuote(s, v + 1, false, end);
        OverrunIsBad(s, end);
      } else {
        InnerTokenIsNotText(s, v + 1, t);
      }
    }
  }

  /** A string token no longer than the text does not decode to it. */
  lemma InnerTokenIsNotText(s: string, i: nat, t: string)
    requires i <= |s| && ScanString(s, i, false).Some? && ScanString(s, i, false).value.0 <= i + |t| && !Plain(t)
    ensures var (q, escapes) := ScanString(s, i, false).value; StringValue(Token(String, s[i..q], escapes)) != Some(t)
  {
    var q := ScanString(s, i, false).value.0;
    hide ScanString, StringBody, StringValue, Plain;
    ScanStringFindsTheQuote(s, i, false, q);
    RawIsNotText(s[i..q], t);
  }

  lemma QuoteLexes(s: string, v: nat)
    requires v < |s| && s[v] == '\"'
    ensures match ScanString(s, v + 1, false)
            case None => Lex(s, v).Bad?
            case Some((end, escapes)) => Lex(s, v) == Lexed(Token(String, s[v + 1..end], escapes), end + 1)
  {
    hide ScanString;
  }

  lemma RawIsNotText(raw: string, t: string)
    requires StringBody(raw) && |raw| <= |t| && !Plain(t)
    ensures StringValue(Token(String, raw, '\\' in raw)) != Some(t)
  {
    hide Plain, StringBody, Decoded;
    if '\\' !in raw {
      BodyWithoutEscapesIsPlain(raw);
    } else if Decoded(raw, 0).Some? {
      assert raw[0..] == raw;
      DecodingShrinks(raw, 0);
    }
  }

  // ---- the first value of a key stays

  lemma {:induction false} MembersKeepFirst(s: string, token: Token, pos: nat, depth: nat, ms: seq<Member>, key: string)
    requires pos <= |s| && Find(ms, key).Some?
    ensures var r := ParseMembers(s, token, pos, depth, ms); r.Parsed? ==> Find(r.value, key) == Find(ms, key)
    decreases |s| - pos
  {
    hide Lex, ParseValue, StringValue, Find, Emplace;
    if ParseMembers(s, token, pos, depth, ms).Parsed? {
      var first := AfterColon(s, pos);
      var v := ParseValue(s, first.token, first.next, depth);
      var m := Member(StringValue(token).value, v.value);
      FindEmplace(ms, m, key);
      var sep := Separator(s, v.next, RightBrace);
      if sep.More? { MembersKeepFirst(s, sep.token, sep.next, depth, Emplace(ms, m), key); }
    }
  }

  /** The member loop, entered at the first token from `p` on. */
  function MembersAt(s: string, p: nat, depth: nat, acc: seq<Member>): Parsed<seq<Member>>
    requires p <= |s|
  {
    match Lex(s, p)
    case Bad => Rejected
    case Lexed(token, next) => ParseMembers(s, token, next, depth, acc)
  }

  lemma KeyLexes(s: string, p: nat, key: string, rest: string)
    requires Plain(key) && StartsWith(s, p, KeyText(key) + rest)
    ensures p + |KeyText(key)| <= |s| && StartsWith(s, p + |KeyText(key)|, rest)
    ensures var r := Lex(s, p);
      && r.Lexed? && r.token.kind == String && StringValue(r.token) == Some(key)
      && AfterColon(s, r.next) == Lex(s, p + |KeyText(key)|)
  {
    hide Plain, StringValue, Escape, StartsWith, KeyText, Quote, AfterColon, Lex;
    var colon := p + |KeyText(key)| - 1;
    KeyParts(key, rest);
    QuotedKeyLexes(s, p, key, [':'] + rest);
    ColonLexes(s, colon, rest);
  }

  lemma QuotedKeyLexes(s: string, p: nat, key: string, tail: string)
    requires StartsWith(s, p, Quote(key) + tail)
    ensures StartsWith(s, p + |Quote(key)|, tail)
    ensures var r := Lex(s, p);
      r.Lexed? && r.token.kind == String && StringValue(r.token) == Some(key) && r.next == p + |Quote(key)|
  {
    hide Lex, StringValue, StartsWith, Quote;
    HasParts(s, p, Quote(key), tail);
    QuotedLexes(s, p, key);
  }

  lemma ColonLexes(s: string, q: nat, rest: string)
    requires StartsWith(s, q, [':'] + rest)
    ensures q + 1 <= |s| && StartsWith(s, q + 1, rest) && AfterColon(s, q) == Lex(s, q + 1)
  {
    assert Punctuator(':') == Some(Colon);
    hide Lex, StartsWith, Punctuator;
    PunctuatorLexes(s, q, ':', rest);
  }

  lemma KeyParts(key: string, rest: string)
    requires Plain(key)
    ensures KeyText(key) + rest == Quote(key) + ([':'] + rest)
    ensures |KeyText(key)| == |Quote(key)| + 1
  {
    PlainNeedsNoEscape(key);
    hide Plain, Quote;
    assert "\"" + key + "\":" == "\"" + key + "\"" + [':'];
  }

  /** A text that needs escaping is not the value its key gets. */
  lemma TextIsNotReadBack(s: string, p: nat, key: string, t: string, depth: nat, acc: seq<Member>)
    requires Plain(key) && StartsWith(s, p, RawMember(key, t)) && Find(acc, key).None?
    requires Follows(s, p + |KeyText(key)| + 1 + |t|) && !Plain(t)
    ensures p <= |s|
    ensures var r := MembersAt(s, p, depth, acc); r.Parsed? ==> GetString(r.value, key) != Some(t)
  {
    hide Plain, Follows, Lex, StringValue, StartsWith, KeyText, Emplace, Find;
    var v := p + |KeyText(key)|;
    KeyLexes(s, p, key, "\"" + t + "\"");
    TokenIsNotText(s, v, t);
    var r, token := MembersAt(s, p, depth, acc), Lex(s, p);
    assert r == ParseMembers(s, token.token, token.next, depth, acc);
    if r.Parsed? {
      var value := Lex(s, v);
      assert ParseValue(s, value.token, value.next, depth).Parsed?;
      var m := Member(key, JText(StringValue(value.token).value));
      FindEmplace(acc, m, key);
      var sep := Separator(s, value.next, RightBrace);
      if sep.More? { MembersKeepFirst(s, sep.token, sep.next, depth, Emplace(acc, m), key); }
    }
  }

  // ---- skipping printed members

  lemma MemberStep(s: string, p: nat, m: Member, rest: string, depth: nat, acc: seq<Member>)
    requires depth <= MAX_DEPTH && Printable(m.value, MAX_DEPTH - depth) && StartsWith(s, p, PrintMember(m) + ("," + rest))
    ensures p + |PrintMember(m)| + 1 <= |s| && StartsWith(s, p + |PrintMember(m)| + 1, rest)
    ensures MembersAt(s, p, depth, acc) == MembersAt(s, p + |PrintMember(m)| + 1, depth, Emplace(acc, m))
  {
    hide Lex, ParseValue, StringValue, StartsWith, PrintMember, Printable, Emplace;
    HasParts(s, p, PrintMember(m), "," + rest);
    MemberReadsBack(s, p, m, depth);
    PunctuatorLexes(s, p + |PrintMember(m)|, ',', rest);
  }

  lemma {:induction false} SkipMembers(s: string, p: nat, ts: seq<string>, ms: seq<Member>, depth: nat, acc: seq<Member>) returns (q: nat)
    requires depth <= MAX_DEPTH && |ms| < |ts| && StartsWith(s, p, Joined(ts))
    requires forall i :: 0 <= i < |ms| ==> ts[i] == PrintMember(ms[i]) && Printable(ms[i].value, MAX_DEPTH - depth)
    ensures p <= |s| && q <= |s| && StartsWith(s, q, Joined(ts[|ms|..])) && q + |Joined(ts[|ms|..])| == p + |Joined(ts)|
    ensures MembersAt(s, p, depth, acc) == MembersAt(s, q, depth, EmplaceAll(acc, ms))
    decreases ms
  {
    hide PrintMember, Printable, StartsWith, MembersAt, Emplace;
    if ms == [] {
      q := p;
      assert ts[0..] == ts;
      StartsInside(s, p, Joined(ts));
    } else {
      MemberStep(s, p, ms[0], Joined(ts[1..]), depth, acc);
      q := SkipMembers(s, p + |ts[0]| + 1, ts[1..], ms[1..], depth, Emplace(acc, ms[0]));
      assert ts[1..][|ms| - 1..] == ts[|ms|..];
    }
  }

  lemma StartsInside(s: string, p: nat, word: string)
    requires StartsWith(s, p, word)
    ensures p + |word| <= |s|
  {}

  // ---- the main result

  ghost predicate Recovers(o: OrderRequest) {
    var json := ParseJson(SerializeOrderRequest(o));
    && json.Some? && json.value.JObject?
    && GetString(json.value.members, "ticker") == Some(o.ticker)
    && GetString(json.value.members, "client_order_id") == Some(o.clientOrderId)
  }

  lemma BraceThenMembers(s: string)
    requires |s| > 1 && s[0] == '{' && s[1] == '\"'
    ensures ParseJson(s).Some? ==>
      MembersAt(s, 1, 1, []).Parsed? && ParseJson(s) == Some(JObject(MembersAt(s, 1, 1, []).value))
  {
    QuoteLexes(s, 1);
    BraceLexes(s);
    hide Lex, ParseMembers;
    assert ParseValue(s, Token(LeftBrace, "{", false), 1, 0) ==
      match ParseObject(s, 1, 1) { case Parsed(ms, next) => Parsed(JObject(ms), next) case Rejected => Rejected };
  }

  lemma BraceLexes(s: string)
    requires |s| > 1 && s[0] == '{'
    ensures Lex(s, 0) == Lexed(Token(LeftBrace, "{", false), 1)
  {}

  /** The whole text read as members from its second character on. */
  lemma ParsesAsMembers(o: OrderRequest)
    ensures var s := SerializeOrderRequest(o);
      && |s| > 1 && StartsWith(s, 1, Joined(MemberTexts(o))) && 1 + |Joined(MemberTexts(o))| == |s|
      && (ParseJson(s).Some? ==>
            MembersAt(s, 1, 1, []).Parsed? && ParseJson(s) == Some(JObject(MembersAt(s, 1, 1, []).value)))
  {
    var s := SerializeOrderRequest(o);
    SizesAre(o);
    StartsWithQuote(o);
    hide MemberTexts, Joined, ParseJson, MembersAt;
    assert s[1..|s|] == Joined(MemberTexts(o));
    BraceThenMembers(s);
  }

  lemma StartsWithQuote(o: OrderRequest)
    ensures |Joined(MemberTexts(o))| > 1 && Joined(MemberTexts(o))[0] == '\"'
  {
    assert MemberTexts(o)[0][0] == '\"';
  }

  /** A ticker that needs escaping is not read back. */
  lemma BadTicker(o: OrderRequest)
    requires !Plain(o.ticker)
    ensures !Recovers(o)
  {
    ParsesAsMembers(o);
    KeysArePlain();
    var s := SerializeOrderRequest(o);
    TickerStands(o, s);
    hide Plain, MemberTexts, ParseJson, MembersAt, SerializeOrderRequest;
    TextIsNotReadBack(s, 1, "ticker", o.ticker, 1, []);
  }

  lemma TickerStands(o: OrderRequest, s: string)
    requires StartsWith(s, 1, Joined(MemberTexts(o)))
    ensures StartsWith(s, 1, RawMember("ticker", o.ticker)) && Follows(s, 1 + |KeyText("ticker")| + 1 + |o.ticker|)
  {
    var ts := MemberTexts(o);
    var rest := Joined(ts[1..]);
    NextStartsWithS(o);
    hide Joined, StartsWith, MemberTexts;
    assert Joined(ts) == ts[0] + ("," + rest) by { JoinedTwo(ts); }
    HasParts(s, 1, ts[0], "," + rest);
    SecondText(o);
    ThreeMore(s, 1 + |ts[0]|, "," + rest);
    assert ("," + rest)[1] == rest[0] && ("," + rest)[2] == rest[1];
    RawLength("ticker", o.ticker);
  }

  lemma RawLength(key: string, text: string)
    ensures |RawMember(key, text)| == |KeyText(key)| + 2 + |text|
  {}

  lemma JoinedTwo(ts: seq<string>)
    requires |ts| > 1
    ensures Joined(ts) == ts[0] + ("," + Joined(ts[1..]))
  {}

  lemma SecondText(o: OrderRequest)
    ensures MemberTexts(o)[0] == RawMember("ticker", o.ticker) && |MemberTexts(o)| == 8
  {}

  lemma NextStartsWithS(o: OrderRequest)
    ensures |MemberTexts(o)| == 8
    ensures var rest := Joined(MemberTexts(o)[1..]); |rest| > 1 && rest[0] == '\"' && rest[1] == 's'
  {
    var second := MemberTexts(o)[1];
    assert second[0] == '\"' && second[1] == 's';
    assert MemberTexts(o)[1..][0] == second;
  }

  lemma ThreeMore(s: string, p: nat, word: string)
    requires StartsWith(s, p, word) && |word| >= 3
    ensures p + 2 < |s| && s[p] == word[0] && s[p + 1] == word[1] && s[p + 2] == word[2]
  {
    var t := s[p..p + |word|];
    assert t[0] == s[p] && t[1] == s[p + 1] && t[2] == s[p + 2];
  }

  /** Nor is a client id that needs escaping. */
  lemma BadClientId(o: OrderRequest)
    requires Plain(o.count) && Plain(o.price) && !Plain(o.clientOrderId)
    ensures !Recovers(o)
  {
    hide Plain;
    if Plain(o.ticker) { BadClientIdOnly(o); } else { BadTicker(o); }
  }

  lemma BadClientIdOnly(o: OrderRequest)
    requires Plain(o.ticker) && Plain(o.count) && Plain(o.price) && !Plain(o.clientOrderId)
    ensures !Recovers(o)
  {
    ParsesAsMembers(o);
    var s := SerializeOrderRequest(o);
    ClientIdIsNotRead(o, s);
    hide ParseJson, MembersAt, SerializeOrderRequest, Plain;
  }

  lemma ClientIdIsNotRead(o: OrderRequest, s: string)
    requires Plain(o.ticker) && Plain(o.count) && Plain(o.price) && !Plain(o.clientOrderId)
    requires |s| > 1 && StartsWith(s, 1, Joined(MemberTexts(o))) && 1 + |Joined(MemberTexts(o))| == |s|
    ensures var r := MembersAt(s, 1, 1, []); r.Parsed? ==> GetString(r.value, "client_order_id") != Some(o.clientOrderId)
  {
    KeysArePlain();
    FirstSevenArePrinted(o);
    SizesAre(o);
    ClientIsLast(o);
    hide Plain, MemberTexts, OrderMembers, MembersAt, Joined, PrintMember, Printable, EmplaceAll, StartsWith, RawMember;
    hide Find, GetString;
    var ts, ms := MemberTexts(o), OrderMembers(o)[..7];
    var q := SkipMembers(s, 1, ts, ms, 1, []);
    assert ts[7..] == [ts[7]];
    LastIsNotRead(o, s, q, EmplaceAll([], ms));
  }

  lemma LastIsNotRead(o: OrderRequest, s: string, q: nat, acc: seq<Member>)
    requires StartsWith(s, q, Joined([RawMember("client_order_id", o.clientOrderId)]))
    requires q + |Joined([RawMember("client_order_id", o.clientOrderId)])| == |s|
    requires !Plain(o.clientOrderId) && Find(acc, "client_order_id").None?
    ensures q <= |s|
    ensures var r := MembersAt(s, q, 1, acc); r.Parsed? ==> GetString(r.value, "client_order_id") != Some(o.clientOrderId)
  {
    KeysArePlain();
    ClientStands(o, s, q);
    hide Plain, Joined, RawMember, StartsWith, KeyText, Follows, Find, GetString, MembersAt;
    TextIsNotReadBack(s, q, "client_order_id", o.clientOrderId, 1, acc);
  }

  lemma FirstSevenArePrinted(o: OrderRequest)
    requires Plain(o.ticker) && Plain(o.count) && Plain(o.price)
    ensures |OrderMembers(o)| == 8 == |MemberTexts(o)|
    ensures var ms := OrderMembers(o)[..7];
      forall i :: 0 <= i < 7 ==> MemberTexts(o)[i] == PrintMember(ms[i]) && Printable(ms[i].value, MAX_DEPTH - 1)
  {
    TextsArePrinted(o);
    LeavesArePrintable(o);
    SizesAre(o);
    hide Plain, MemberTexts, OrderMembers, PrintMember, Printable;
  }

  lemma ClientIsLast(o: OrderRequest)
    ensures MemberTexts(o)[7] == RawMember("client_order_id", o.clientOrderId)
    ensures Find(EmplaceAll([], OrderMembers(o)[..7]), "client_order_id").None?
  {
    hide EmplaceAll, Find;
    var ms := OrderMembers(o)[..7];
    FindEmplaceAll([], ms, "client_order_id");
    forall i | 0 <= i < 7 ensures ms[i].key != "client_order_id" { KeysDiffer(o, i, 7); }
    FindNothing(ms, "client_order_id");
    FindNothing([], "client_order_id");
  }

  lemma ClientStands(o: OrderRequest, s: string, q: nat)
    requires StartsWith(s, q, Joined([RawMember("client_order_id", o.clientOrderId)]))
    requires q + |Joined([RawMember("client_order_id", o.clientOrderId)])| == |s|
    ensures StartsWith(s, q, RawMember("client_order_id", o.clientOrderId))
    ensures Follows(s, q + |KeyText("client_order_id")| + 1 + |o.clientOrderId|)
  {
    var text := RawMember("client_order_id", o.clientOrderId);
    assert Joined([text]) == text + "}";
    RawLength("client_order_id", o.clientOrderId);
    hide RawMember, KeyText;
    HasParts(s, q, text, "}");
    HeadAt(s, q + |text|, "}");
  }

  /** Ticker and client id are read back from the order text exactly if neither needs escaping. */
  lemma RecoversExactlyIfPlain(o: OrderRequest)
    requires Plain(o.count) && Plain(o.price)
    ensures Recovers(o) <==> Plain(o.ticker) && Plain(o.clientOrderId)
  {
    hide Plain, ParseJson, SerializeOrderRequest, EmplaceAll;
    if !Plain(o.ticker) {
      BadTicker(o);
    } else if !Plain(o.clientOrderId) {
      BadClientId(o);
    } else {
      OrderReadsBack(o);
      FieldsReadBack(o);
    }
  }

  // ---- price and count

  /** What a parser that keeps the first of equal keys, as this one does, reads of an order that parses at all. */
  ghost predicate KeepsNumbers(o: OrderRequest) {
    var json := ParseJson(SerializeOrderRequest(o));
    json.Some? ==>
      && json.value.JObject?
      && GetString(json.value.members, "count") == Some(o.count)
      && GetString(json.value.members, "price") == Some(o.price)
  }

  /** A plain ticker protects the members after it: whatever the client id holds, the price and the count of the
      order are read, or the order cannot be read. */
  lemma NumbersSurvive(o: OrderRequest)
    requires Plain(o.ticker) && Plain(o.count) && Plain(o.price)
    ensures KeepsNumbers(o)
  {
    ParsesAsMembers(o);
    var s := SerializeOrderRequest(o);
    hide ParseJson, MembersAt, SerializeOrderRequest, Plain, GetString;
    NumbersAreRead(o, s);
  }

  lemma NumbersAreRead(o: OrderRequest, s: string)
    requires Plain(o.ticker) && Plain(o.count) && Plain(o.price)
    requires |s| > 1 && StartsWith(s, 1, Joined(MemberTexts(o))) && 1 + |Joined(MemberTexts(o))| == |s|
    ensures var r := MembersAt(s, 1, 1, []);
      r.Parsed? ==> GetString(r.value, "count") == Some(o.count) && GetString(r.value, "price") == Some(o.price)
  {
    hide Plain, MemberTexts, MembersAt, Joined, PrintMember, Printable, EmplaceAll, StartsWith, Find;
    FirstSevenArePrinted(o);
    SizesAre(o);
    var ts, ms := MemberTexts(o), OrderMembers(o)[..7];
    var q := SkipMembers(s, 1, ts, ms, 1, []);
    FoundAmongSeven(o, 2);
    FoundAmongSeven(o, 3);
    RestKeepsFirst(s, q, EmplaceAll([], ms), "count");
    RestKeepsFirst(s, q, EmplaceAll([], ms), "price");
  }

  lemma FoundAmongSeven(o: OrderRequest, i: nat)
    requires i < 7
    ensures Find(EmplaceAll([], OrderMembers(o)[..7]), OrderMembers(o)[i].key) == Some(OrderMembers(o)[i].value)
  {
    hide EmplaceAll, Find;
    var ms := OrderMembers(o)[..7];
    forall j | 0 <= j < i ensures ms[j].key != ms[i].key { KeysDiffer(o, j, i); }
    FindDistinct(ms, i);
    FindNothing([], ms[i].key);
    FindEmplaceAll([], ms, ms[i].key);
  }

  lemma RestKeepsFirst(s: string, q: nat, acc: seq<Member>, key: string)
    requires q <= |s| && Find(acc, key).Some?
    ensures var r := MembersAt(s, q, 1, acc); r.Parsed? ==> Find(r.value, key) == Find(acc, key)
  {
    hide Find, ParseMembers, Lex;
    var token := Lex(s, q);
    if token.Lexed? { MembersKeepFirst(s, token.token, token.next, 1, acc, key); }
  }

  /** A ticker that closes its own text and brings a price along. */
  function TickerWithPrice(name: string, price: string): string { name + "\",\"price\":\"" + price }

  lemma TwoMembersInOne(name: string, price: string)
    ensures RawMember("ticker", TickerWithPrice(name, price))
         == RawMember("ticker", name) + ("," + RawMember("price", price))
  {
    var k := KeyText("ticker");
    hide KeyText;
    assert KeyText("price") == "\"price\":" by { KeyOfPrice(); }
    var middle := "\",\"price\":\"";
    assert middle == "\"" + ("," + ("\"price\":" + "\""));
    assert k + ("\"" + (name + middle + price) + "\"") == k + ("\"" + name + "\"") + ("," + ("\"price\":" + ("\"" + price + "\"")));
  }

  lemma KeyOfPrice()
    ensures KeyText("price") == "\"price\":"
  {}

  /** Then that price is read instead of the order's, by a parser that keeps the first of equal keys. */
  lemma TickerReplacesPrice(o: OrderRequest, name: string, price: string)
    requires o.ticker == TickerWithPrice(name, price) && Plain(name) && Plain(price)
    requires Plain(o.count) && Plain(o.price) && Plain(o.clientOrderId)
    ensures var json := ParseJson(SerializeOrderRequest(o));
      json.Some? && json.value.JObject? && GetString(json.value.members, "price") == Some(price)
  {
    var ms2 := [Member("ticker", JText(name)), Member("price", JText(price))] + OrderMembers(o)[1..];
    WrittenAsNine(o, name, price);
    hide Plain, MemberTexts, OrderMembers, ParseJson, PrintObject, EmplaceAll, SerializeOrderRequest, Printable, Find;
    PrintedObjectParses(ms2);
    FindDistinct(ms2, 1);
    FindNothing([], "price");
    FindEmplaceAll([], ms2, "price");
  }

  lemma WrittenAsNine(o: OrderRequest, name: string, price: string)
    requires o.ticker == TickerWithPrice(name, price) && Plain(name) && Plain(price)
    requires Plain(o.count) && Plain(o.price) && Plain(o.clientOrderId)
    ensures |OrderMembers(o)| == 8
    ensures var ms2 := [Member("ticker", JText(name)), Member("price", JText(price))] + OrderMembers(o)[1..];
      && SerializeOrderRequest(o) == PrintObject(ms2)
      && forall i :: 0 <= i < 9 ==> Printable(ms2[i].value, MAX_DEPTH - 1)
  {
    SizesAre(o);
    KeysArePlain();
    hide Plain, MemberTexts, OrderMembers, PrintMember, Joined, PrintMembers, RawMember;
    TextsArePrinted(o);
    LeavesArePrintable(o);
    RawMemberIsPrinted("ticker", name);
    RawMemberIsPrinted("price", price);
    var ts, ms := MemberTexts(o), OrderMembers(o);
    var ts2, ms2 := [RawMember("ticker", name), RawMember("price", price)] + ts[1..],
                    [Member("ticker", JText(name)), Member("price", JText(price))] + ms[1..];
    JoinedAsNine(o, name, price);
    JoinedIsPrinted(ts2, ms2);
    assert "{" + PrintMember(ms2[0]) + PrintMembers(ms2[1..]) == "{" + (PrintMember(ms2[0]) + PrintMembers(ms2[1..]));
  }

  lemma JoinedAsNine(o: OrderRequest, name: string, price: string)
    requires o.ticker == TickerWithPrice(name, price)
    ensures |MemberTexts(o)| == 8
    ensures Joined(MemberTexts(o)) == Joined([RawMember("ticker", name), RawMember("price", price)] + MemberTexts(o)[1..])
  {
    SecondText(o);
    TwoMembersInOne(name, price);
    hide MemberTexts, RawMember, Joined, TickerWithPrice;
    var ts := MemberTexts(o);
    var a, b, rest := RawMember("ticker", name), RawMember("price", price), ts[1..];
    JoinedTwo(ts);
    JoinedTwo([a, b] + rest);
    assert ([a, b] + rest)[1..] == [b] + rest && ([b] + rest)[1..] == rest;
    JoinedTwo([b] + rest);
    assert (a + ("," + b)) + ("," + Joined(rest)) == a + ("," + (b + ("," + Joined(rest))));
  }
}
