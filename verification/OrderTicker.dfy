/** What any ticker, escaped or not, does to the rest of its order: the order is read exactly as the ticker's own
    fragment of it, with the other members added behind. */
module OrderTicker {
  import opened Text
  import opened JsonLexing
  import opened JsonTree
  import opened JsonPrinter
  import opened JsonNumbers
  import opened KalshiMessages
  import opened OrderPath
  import opened OrderPathExact

  // ---- two texts that part after a quote

  /** `u` and `w` agree up to `b`, where a quote stands last; there `u` ends with a brace, and `w` goes on with a
      comma and a string that starts with an `s`. */
  ghost predicate Part(u: string, w: string, b: nat) {
    && 0 < b && |u| == b + 1 && b + 2 < |w|
    && (forall i :: 0 <= i < b ==> u[i] == w[i])
    && u[b - 1] == '\"' && u[b] == '}' && w[b] == ',' && w[b + 1] == '\"' && w[b + 2] == 's'
  }

  lemma {:induction false} SpaceTwin(u: string, w: string, b: nat, p: nat)
    requires Part(u, w, b) && p < b
    ensures SkipSpace(u, p) == SkipSpace(w, p) < b
    decreases b - p
  {
    if IsSpace(u[p]) { SpaceTwin(u, w, b, p + 1); }
  }

  lemma {:induction false} DigitsTwin(u: string, w: string, b: nat, i: nat)
    requires Part(u, w, b) && i < b
    ensures DigitsEnd(u, i) == DigitsEnd(w, i) < b
    decreases b - i
  {
    if IsDigit(u[i]) { DigitsTwin(u, w, b, i + 1); }
  }

  lemma WholeTwin(u: string, w: string, b: nat, i: nat)
    requires Part(u, w, b) && i < b
    ensures WholeEnd(u, i) == WholeEnd(w, i) && (WholeEnd(u, i).Some? ==> WholeEnd(u, i).value < b)
  {
    DigitsTwin(u, w, b, i);
  }

  lemma FractionTwin(u: string, w: string, b: nat, i: nat)
    requires Part(u, w, b) && i < b
    ensures FractionEnd(u, i) == FractionEnd(w, i) && (FractionEnd(u, i).Some? ==> FractionEnd(u, i).value < b)
  {
    if u[i] == '.' { DigitsTwin(u, w, b, i + 1); }
  }

  lemma ExponentTwin(u: string, w: string, b: nat, i: nat)
    requires Part(u, w, b) && i < b
    ensures ExponentEnd(u, i) == ExponentEnd(w, i) && (ExponentEnd(u, i).Some? ==> ExponentEnd(u, i).value < b)
  {
    if u[i] == 'e' || u[i] == 'E' {
      var j := if u[i + 1] == '+' || u[i + 1] == '-' then i + 2 else i + 1;
      DigitsTwin(u, w, b, j);
    }
  }

  lemma NumberTwin(u: string, w: string, b: nat, p: nat)
    requires Part(u, w, b) && p < b
    ensures NumberEnd(u, p) == NumberEnd(w, p) && (NumberEnd(u, p).Some? ==> NumberEnd(u, p).value < b)
  {
    var q := if u[p] == '-' then p + 1 else p;
    hide WholeEnd, FractionEnd, ExponentEnd;
    WholeTwin(u, w, b, q);
    if WholeEnd(u, q).Some? {
      FractionTwin(u, w, b, WholeEnd(u, q).value);
      if FractionEnd(u, WholeEnd(u, q).value).Some? { ExponentTwin(u, w, b, FractionEnd(u, WholeEnd(u, q).value).value); }
    }
  }

  lemma WordTwin(u: string, w: string, b: nat, p: nat, word: string)
    requires Part(u, w, b) && p < b && '\"' !in word
    ensures StartsWith(u, p, word) <==> StartsWith(w, p, word)
    ensures StartsWith(u, p, word) ==> p + |word| < b
  {
    WordStaysInside(u, p, word, b - 1);
    WordStaysInside(w, p, word, b - 1);
    if p + |word| < b { assert u[p..p + |word|] == w[p..p + |word|]; }
  }

  lemma WordStaysInside(s: string, p: nat, word: string, q: nat)
    requires p <= q < |s| && s[q] == '\"' && '\"' !in word
    ensures StartsWith(s, p, word) ==> p + |word| <= q
  {
    assert StartsWith(s, p, word) ==> forall i :: p <= i < p + |word| ==> s[i] == s[p..p + |word|][i - p] == word[i - p];
  }

  lemma EscapeTwin(u: string, w: string, b: nat, i: nat)
    requires Part(u, w, b) && i + 1 < b
    ensures EscapeLength(u, i) == EscapeLength(w, i) && i + EscapeLength(u, i) <= b
  {
    HexTwin(u, b, i);
    HexTwin(w, b, i);
    if i + 6 < b { assert u[i + 2..i + 6] == w[i + 2..i + 6]; }
  }

  lemma HexTwin(s: string, b: nat, i: nat)
    requires 0 < b < |s| && s[b - 1] == '\"' && i + 1 < b
    ensures i + 5 < |s| && s[i + 1] == 'u' && Numeral(s[i + 2..i + 6], 16) ==> i + 6 < b
  {
    if i + 5 < |s| && s[i + 1] == 'u' && i + 6 >= b { assert s[i + 2..i + 6][b - 3 - i] == s[b - 1]; }
  }

  /** Inside a string both scans end at the same quote, or run past the one they have in common: `u` then has no
      end, and `w` ends at its next quote. */
  lemma {:induction false} ScanTwin(u: string, w: string, b: nat, i: nat, escapes: bool)
    requires Part(u, w, b) && i <= b
    ensures var ru, rw := ScanString(u, i, escapes), ScanString(w, i, escapes);
      (ru == rw && (ru.Some? ==> ru.value.0 < b)) || (ru.None? && rw.Some? && rw.value.0 == b + 1)
    decreases b - i
  {
    hide EscapeLength;
    if i == b {
      assert ScanString(u, b + 1, escapes).None?;
      assert ScanString(w, b + 1, escapes) == Some((b + 1, escapes));
    } else if u[i] == '\\' {
      EscapeTwin(u, w, b, i);
      if EscapeLength(u, i) > 0 { ScanTwin(u, w, b, i + EscapeLength(u, i), true); }
    } else if u[i] != '\"' && u[i] >= ' ' {
      ScanTwin(u, w, b, i + 1, escapes);
    }
  }

  // ---- tokens

  /** A token that stands in both texts; only a string reaches up to `b`. */
  predicate Shared(token: Token, next: nat, b: nat) {
    next <= b && token.kind != End && (next == b ==> token.kind == String)
  }

  /** The same token in both, or none in `u` and in `w` a string behind which nothing can be read. */
  ghost predicate TokenTwin(ru: Lexed, rw: Lexed, b: nat) {
    || (ru == rw && (ru.Lexed? ==> Shared(ru.token, ru.next, b)))
    || (ru.Bad? && rw.Lexed? && rw.token.kind == String && rw.next == b + 2)
  }

  lemma LexAtTwin(u: string, w: string, b: nat, p: nat)
    requires Part(u, w, b) && p < b
    ensures TokenTwin(LexAt(u, p), LexAt(w, p), b)
  {
    hide ScanString, NumberEnd, StartsWith;
    NoQuoteInWords();
    if u[p] == '\"' {
      ScanTwin(u, w, b, p + 1, false);
      var ru := ScanString(u, p + 1, false);
      if ru.Some? { assert u[p + 1..ru.value.0] == w[p + 1..ru.value.0]; }
    } else {
      WordTwin(u, w, b, p, "true");
      WordTwin(u, w, b, p, "false");
      WordTwin(u, w, b, p, "null");
      NumberTwin(u, w, b, p);
      var n := NumberEnd(u, p);
      if n.Some? { assert u[p..n.value] == w[p..n.value]; }
    }
  }

  lemma NoQuoteInWords()
    ensures '\"' !in "true" && '\"' !in "false" && '\"' !in "null"
  {}

  lemma LexTwin(u: string, w: string, b: nat, p: nat)
    requires Part(u, w, b) && p < b
    ensures TokenTwin(Lex(u, p), Lex(w, p), b)
  {
    hide LexAt;
    SpaceTwin(u, w, b, p);
    LexAtTwin(u, w, b, SkipSpace(u, p));
  }

  /** At `b` itself, and behind the string that ran over it. */
  lemma LexAtParting(u: string, w: string, b: nat)
    requires Part(u, w, b)
    ensures Lex(u, b) == Lexed(Token(RightBrace, "}", false), |u|)
    ensures Lex(w, b) == Lexed(Token(Comma, ",", false), b + 1)
    ensures Lex(w, b + 2).Bad?
  {
    NotALexeme(w, b + 2);
  }

  lemma ColonTwin(u: string, w: string, b: nat, pos: nat)
    requires Part(u, w, b) && pos <= b
    ensures TokenTwin(AfterColon(u, pos), AfterColon(w, pos), b)
  {
    hide Lex;
    LexAtParting(u, w, b);
    if pos < b {
      LexTwin(u, w, b, pos);
      var colon := Lex(u, pos);
      if colon.Lexed? && colon.token.kind == Colon { LexTwin(u, w, b, colon.next); }
    }
  }

  ghost predicate SeparationTwin(ru: Separation, rw: Separation, b: nat) {
    || (ru == rw && (ru.Stop? ==> ru.end < b) && (ru.More? ==> Shared(ru.token, ru.next, b)))
    || (ru.Wrong? && rw.More? && rw.token.kind == String && rw.next == b + 2)
  }

  lemma SeparatorTwin(u: string, w: string, b: nat, pos: nat, closing: TokenKind)
    requires Part(u, w, b) && pos < b && closing != String
    ensures SeparationTwin(Separator(u, pos, closing), Separator(w, pos, closing), b)
  {
    hide Lex;
    LexTwin(u, w, b, pos);
    var sep := Lex(u, pos);
    if sep.Lexed? && sep.token.kind == Comma { LexTwin(u, w, b, sep.next); }
  }

  // ---- what follows the parting in `w`

  predicate Leaves(ms: seq<Member>) { forall i :: 0 <= i < |ms| ==> ms[i].value.JText? || ms[i].value.JBool? }

  /** The members `ms`, printed behind the comma, are all that is left of `w`. */
  ghost predicate Ahead(w: string, b: nat, ms: seq<Member>) {
    && ms != [] && Leaves(ms)
    && var rest := PrintMember(ms[0]) + PrintMembers(ms[1..]); StartsWith(w, b + 1, rest) && b + 1 + |rest| == |w|
  }

  lemma RestIsRead(u: string, w: string, b: nat, ms: seq<Member>, depth: nat, acc: seq<Member>)
    requires Part(u, w, b) && Ahead(w, b, ms) && depth <= MAX_DEPTH
    ensures var sep := Separator(w, b, RightBrace);
      && sep == Separator(w, b, RightBracket) && sep.More?
      && ParseMembers(w, sep.token, sep.next, depth, acc) == Parsed(EmplaceAll(acc, ms), |w|)
  {
    LexAtParting(u, w, b);
    hide Lex, ParseMembers, PrintMember, PrintMembers, StartsWith, EmplaceAll;
    MembersReadBack(w, b + 1, ms, depth, acc);
  }

  /** A key is no element. */
  lemma KeyIsNoElement(u: string, w: string, b: nat, ms: seq<Member>, depth: nat, vs: seq<JsonValue>)
    requires Part(u, w, b) && Ahead(w, b, ms)
    ensures var sep := Separator(w, b, RightBracket);
      sep.More? && ParseElements(w, sep.token, sep.next, depth, vs).Rejected?
  {
    LexAtParting(u, w, b);
    hide Lex, PrintMember, PrintMembers, StartsWith, ParseElements;
    HasParts(w, b + 1, PrintMember(ms[0]), PrintMembers(ms[1..]));
    MemberReadsBack(w, b + 1, ms[0], 0);
    var key := Lex(w, b + 1);
    ColonEndsElements(w, key.token, key.next, depth, vs);
  }

  lemma ColonEndsElements(s: string, token: Token, pos: nat, depth: nat, vs: seq<JsonValue>)
    requires pos <= |s| && token.kind == String && AfterColon(s, pos).Lexed?
    ensures ParseElements(s, token, pos, depth, vs).Rejected?
  {
    hide Lex, StringValue;
  }

  /** Behind the string that ran over the parting nothing can be read. */
  lemma StuckBehind(u: string, w: string, b: nat, token: Token, depth: nat, ms: seq<Member>, vs: seq<JsonValue>)
    requires Part(u, w, b) && token.kind == String
    ensures AfterColon(w, b + 2).Bad? && Separator(w, b + 2, RightBrace).Wrong?
    ensures ParseMembers(w, token, b + 2, depth, ms).Rejected? && ParseElements(w, token, b + 2, depth, vs).Rejected?
  {
    hide Lex;
    LexAtParting(u, w, b);
  }

  lemma NothingBehindTheEnd(s: string, closing: TokenKind)
    requires closing != End
    ensures Separator(s, |s|, closing).Wrong?
  {
    EndLexes(s);
  }

  // ---- values, objects and arrays

  ghost predicate SameInside<T(!new)>(ru: Parsed<T>, rw: Parsed<T>, b: nat) { ru == rw && (ru.Parsed? ==> ru.next <= b) }

  lemma {:induction false} ValueTwin(u: string, w: string, b: nat, ms: seq<Member>, token: Token, pos: nat, depth: nat)
    requires Part(u, w, b) && Ahead(w, b, ms) && Shared(token, pos, b)
    ensures var ru, rw := ParseValue(u, token, pos, depth), ParseValue(w, token, pos, depth);
      SameInside(ru, rw, b) || (ru.Parsed? && ru.next == |u| && rw.Parsed? && rw.next == |w|)
    decreases b - pos, 1
  {
    hide Part, Ahead, ParseValue, ParseObject, ParseArray, EmplaceAll;
    Lengths(u, w, b);
    if token.kind == LeftBrace {
      BraceValue(u, token, pos, depth);
      BraceValue(w, token, pos, depth);
      if depth < MAX_DEPTH { ObjectTwin(u, w, b, ms, pos, depth + 1); }
    } else if token.kind == LeftBracket {
      BracketValue(u, token, pos, depth);
      BracketValue(w, token, pos, depth);
      if depth < MAX_DEPTH { ArrayTwin(u, w, b, ms, pos, depth + 1); }
    } else {
      ScalarValue(u, w, token, pos, depth);
    }
  }

  lemma BraceValue(s: string, token: Token, pos: nat, depth: nat)
    requires pos <= |s| && token.kind == LeftBrace
    ensures var r := ParseObject(s, pos, depth + 1);
      ParseValue(s, token, pos, depth)
      == if depth >= MAX_DEPTH || r.Rejected? then Rejected else Parsed(JObject(r.value), r.next)
  {
    hide ParseObject;
  }

  lemma BracketValue(s: string, token: Token, pos: nat, depth: nat)
    requires pos <= |s| && token.kind == LeftBracket
    ensures var r := ParseArray(s, pos, depth + 1);
      ParseValue(s, token, pos, depth)
      == if depth >= MAX_DEPTH || r.Rejected? then Rejected else Parsed(JArray(r.value), r.next)
  {
    hide ParseArray;
  }

  lemma ScalarValue(u: string, w: string, token: Token, pos: nat, depth: nat)
    requires pos <= |u| && pos <= |w| && token.kind != LeftBrace && token.kind != LeftBracket
    ensures var r := ParseValue(u, token, pos, depth);
      r == ParseValue(w, token, pos, depth) && (r.Parsed? ==> r.next == pos)
  {
    hide StringValue;
  }

  lemma Lengths(u: string, w: string, b: nat)
    requires Part(u, w, b)
    ensures |u| == b + 1 && b + 2 < |w|
  {}

  lemma {:induction false} ObjectTwin(u: string, w: string, b: nat, ms: seq<Member>, pos: nat, depth: nat)
    requires Part(u, w, b) && Ahead(w, b, ms) && pos < b && depth <= MAX_DEPTH
    ensures var ru, rw := ParseObject(u, pos, depth), ParseObject(w, pos, depth);
      SameInside(ru, rw, b) || (ru.Parsed? && ru.next == |u| && rw == Parsed(EmplaceAll(ru.value, ms), |w|))
    decreases b - pos, 0
  {
    hide Part, Ahead, Lex, ParseMembers, EmplaceAll;
    Lengths(u, w, b);
    LexTwin(u, w, b, pos);
    var first := Lex(u, pos);
    if first.Bad? {
      StuckObject(u, w, b, pos, depth);
    } else if first.token.kind != RightBrace {
      MembersTwin(u, w, b, ms, first.token, first.next, depth, []);
    }
  }

  lemma StuckObject(u: string, w: string, b: nat, pos: nat, depth: nat)
    requires Part(u, w, b) && pos < b && Lex(u, pos).Bad? && TokenTwin(Lex(u, pos), Lex(w, pos), b)
    ensures ParseObject(u, pos, depth).Rejected? && ParseObject(w, pos, depth).Rejected?
  {
    hide Part, Lex, ParseMembers;
    Lengths(u, w, b);
    if Lex(w, pos).Lexed? { StuckBehind(u, w, b, Lex(w, pos).token, depth, [], []); }
  }

  lemma {:induction false} ArrayTwin(u: string, w: string, b: nat, ms: seq<Member>, pos: nat, depth: nat)
    requires Part(u, w, b) && Ahead(w, b, ms) && pos < b && depth <= MAX_DEPTH
    ensures SameInside(ParseArray(u, pos, depth), ParseArray(w, pos, depth), b)
    decreases b - pos, 0
  {
    hide Part, Ahead, Lex, ParseElements;
    Lengths(u, w, b);
    LexTwin(u, w, b, pos);
    var first := Lex(u, pos);
    if first.Bad? {
      StuckArray(u, w, b, pos, depth);
    } else if first.token.kind != RightBracket {
      ElementsTwin(u, w, b, ms, first.token, first.next, depth, []);
    }
  }

  lemma StuckArray(u: string, w: string, b: nat, pos: nat, depth: nat)
    requires Part(u, w, b) && pos < b && Lex(u, pos).Bad? && TokenTwin(Lex(u, pos), Lex(w, pos), b)
    ensures ParseArray(u, pos, depth).Rejected? && ParseArray(w, pos, depth).Rejected?
  {
    hide Part, Lex, ParseElements;
    Lengths(u, w, b);
    if Lex(w, pos).Lexed? { StuckBehind(u, w, b, Lex(w, pos).token, depth, [], []); }
  }

  /** The member loop: the same inside, or both end with their texts, `w` having read the other members too. */
  lemma {:induction false} MembersTwin(
    u: string, w: string, b: nat, ms: seq<Member>, token: Token, pos: nat, depth: nat, acc: seq<Member>)
    requires Part(u, w, b) && Ahead(w, b, ms) && pos <= b && depth <= MAX_DEPTH
    ensures b < |u| && b < |w|
    ensures var ru, rw := ParseMembers(u, token, pos, depth, acc), ParseMembers(w, token, pos, depth, acc);
      SameInside(ru, rw, b) || (ru.Parsed? && ru.next == |u| && rw == Parsed(EmplaceAll(ru.value, ms), |w|))
    decreases b - pos, 0
  {
    Lengths(u, w, b);
    MembersUnfold(u, token, pos, depth, acc);
    MembersUnfold(w, token, pos, depth, acc);
    hide Part, Ahead, ParseMembers, MembersAfter, ParseValue, StringValue, Emplace, EmplaceAll, AfterColon;
    ColonTwin(u, w, b, pos);
    var first := AfterColon(u, pos);
    if first.Bad? {
      if AfterColon(w, pos).Lexed? { StuckValue(u, w, b, AfterColon(w, pos).token, depth); }
    } else {
      ValueTwin(u, w, b, ms, first.token, first.next, depth);
      var v := ParseValue(u, first.token, first.next, depth);
      if v.Parsed? && StringValue(token).Some? {
        if v.next <= b {
          AfterTwin(u, w, b, ms, v.next, depth, Emplace(acc, Member(StringValue(token).value, v.value)));
        } else {
          NothingAfterTheEnd(u);
          NothingAfterTheEnd(w);
        }
      }
    }
  }

  /** The member loop from behind a value. */
  function MembersAfter(s: string, pos: nat, depth: nat, acc: seq<Member>): Parsed<seq<Member>>
    requires pos <= |s|
  {
    match Separator(s, pos, RightBrace)
    case Stop(end) => Parsed(acc, end)
    case More(token, next) => ParseMembers(s, token, next, depth, acc)
    case Wrong => Rejected
  }

  lemma MembersUnfold(s: string, token: Token, pos: nat, depth: nat, acc: seq<Member>)
    requires pos <= |s|
    ensures var r := ParseMembers(s, token, pos, depth, acc);
      if token.kind != String || StringValue(token).None? || AfterColon(s, pos).Bad? then r.Rejected?
      else
        var first := AfterColon(s, pos);
        var v := ParseValue(s, first.token, first.next, depth);
        r == if v.Rejected? then Rejected
             else MembersAfter(s, v.next, depth, Emplace(acc, Member(StringValue(token).value, v.value)))
  {
    hide ParseValue, AfterColon, Separator, Emplace, StringValue;
  }

  lemma {:induction false} AfterTwin(
    u: string, w: string, b: nat, ms: seq<Member>, pos: nat, depth: nat, acc: seq<Member>)
    requires Part(u, w, b) && Ahead(w, b, ms) && pos <= b && depth <= MAX_DEPTH
    ensures b < |u| && b < |w|
    ensures var ru, rw := MembersAfter(u, pos, depth, acc), MembersAfter(w, pos, depth, acc);
      SameInside(ru, rw, b) || (ru.Parsed? && ru.next == |u| && rw == Parsed(EmplaceAll(ru.value, ms), |w|))
    decreases b - pos, 1
  {
    hide Part, Ahead, ParseMembers, Separator, EmplaceAll;
    Lengths(u, w, b);
    if pos < b {
      SeparatorTwin(u, w, b, pos, RightBrace);
      var su, sw := Separator(u, pos, RightBrace), Separator(w, pos, RightBrace);
      if su.More? {
        MembersTwin(u, w, b, ms, su.token, su.next, depth, acc);
      } else if sw.More? {
        StuckBehind(u, w, b, sw.token, depth, acc, []);
      }
    } else {
      RestIsRead(u, w, b, ms, depth, acc);
      BraceStops(u, w, b);
    }
  }

  lemma NothingAfterTheEnd(s: string)
    ensures forall depth, acc :: MembersAfter(s, |s|, depth, acc).Rejected?
  {
    NothingBehindTheEnd(s, RightBrace);
  }

  lemma StuckValue(u: string, w: string, b: nat, token: Token, depth: nat)
    requires Part(u, w, b) && token.kind == String
    ensures b + 2 <= |w|
    ensures var v := ParseValue(w, token, b + 2, depth);
      v.Parsed? ==> forall acc :: MembersAfter(w, v.next, depth, acc).Rejected?
  {
    StuckBehind(u, w, b, token, depth, [], []);
    TextStays(w, token, b + 2, depth);
    hide ParseValue;
  }

  lemma TextStays(s: string, token: Token, pos: nat, depth: nat)
    requires pos <= |s| && token.kind == String
    ensures ParseValue(s, token, pos, depth).Parsed? ==> ParseValue(s, token, pos, depth).next == pos
  {}

  lemma BraceStops(u: string, w: string, b: nat)
    requires Part(u, w, b)
    ensures Separator(u, b, RightBrace) == Stop(|u|) && Separator(u, b, RightBracket).Wrong?
  {
    hide Lex;
    LexAtParting(u, w, b);
  }

  /** The element loop never gets past the parting. */
  lemma {:induction false} ElementsTwin(
    u: string, w: string, b: nat, ms: seq<Member>, token: Token, pos: nat, depth: nat, vs: seq<JsonValue>)
    requires Part(u, w, b) && Ahead(w, b, ms) && Shared(token, pos, b) && depth <= MAX_DEPTH
    ensures SameInside(ParseElements(u, token, pos, depth, vs), ParseElements(w, token, pos, depth, vs), b)
    decreases b - pos, 2
  {
    hide Part, Ahead, Lex, ParseValue, Separator;
    Lengths(u, w, b);
    ValueTwin(u, w, b, ms, token, pos, depth);
    var v := ParseValue(u, token, pos, depth);
    if v.Parsed? {
      if v.next < b {
        SeparatorTwin(u, w, b, v.next, RightBracket);
        var su, sw := Separator(u, v.next, RightBracket), Separator(w, v.next, RightBracket);
        if su.More? {
          ElementsTwin(u, w, b, ms, su.token, su.next, depth, vs + [v.value]);
        } else if sw.More? {
          StuckBehind(u, w, b, sw.token, depth, [], vs + [v.value]);
        }
      } else if v.next == b {
        KeyIsNoElement(u, w, b, ms, depth, vs + [v.value]);
        BraceStops(u, w, b);
      } else {
        NothingBehindTheEnd(u, RightBracket);
        NothingBehindTheEnd(w, RightBracket);
      }
    }
  }

  // ---- whole texts

  /** Neither text ends inside what they share. */
  lemma NoEndInside(u: string, w: string, b: nat, p: nat)
    requires Part(u, w, b) && p <= b
    ensures Lex(u, p).Bad? || Lex(u, p).token.kind != End
    ensures Lex(w, p).Bad? || Lex(w, p).token.kind != End
  {
    hide Lex;
    LexAtParting(u, w, b);
    if p < b { LexTwin(u, w, b, p); }
  }

  lemma TextsTwin(u: string, w: string, b: nat, ms: seq<Member>)
    requires Part(u, w, b) && Ahead(w, b, ms) && 1 < b && u[0] == '{'
    ensures match ParseJson(u)
            case None => ParseJson(w).None?
            case Some(v) => v.JObject? && ParseJson(w) == Some(JObject(EmplaceAll(v.members, ms)))
  {
    Lengths(u, w, b);
    BraceLexes(u);
    BraceLexes(w);
    EndLexes(u);
    EndLexes(w);
    hide Part, Ahead, Lex, ParseObject, EmplaceAll;
    ObjectTwin(u, w, b, ms, 1, 1);
    var ru := ParseObject(u, 1, 1);
    if ru.Parsed? && ru.next <= b { NoEndInside(u, w, b, ru.next); }
  }

  // ---- the order

  /** The order text cut off behind the ticker and closed. */
  function TickerFragment(ticker: string): string { "{" + RawMember("ticker", ticker) + "}" }

  lemma OrderParts(o: OrderRequest)
    requires Plain(o.count) && Plain(o.price) && Plain(o.clientOrderId)
    ensures |OrderMembers(o)| == 8
    ensures var b := 1 + |RawMember("ticker", o.ticker)|;
      && 1 < b && Part(TickerFragment(o.ticker), SerializeOrderRequest(o), b)
      && Ahead(SerializeOrderRequest(o), b, OrderMembers(o)[1..])
  {
    SizesAre(o);
    SecondText(o);
    RawEnds("ticker", o.ticker);
    NextStartsWithS(o);
    var ts, ms := MemberTexts(o), OrderMembers(o);
    RestIsPrinted(o);
    LeafMembers(o);
    hide MemberTexts, OrderMembers, RawMember, Joined, PrintMember, PrintMembers, Plain;
    JoinedTwo(ts);
    PartingText(RawMember("ticker", o.ticker), Joined(ts[1..]));
  }

  lemma LeafMembers(o: OrderRequest)
    ensures |OrderMembers(o)| == 8 && Leaves(OrderMembers(o)[1..])
  {}

  lemma RawEnds(key: string, text: string)
    ensures var t := RawMember(key, text); |t| > 1 && t[|t| - 1] == '\"'
  {}

  lemma RestIsPrinted(o: OrderRequest)
    requires Plain(o.count) && Plain(o.price) && Plain(o.clientOrderId)
    ensures |MemberTexts(o)| == 8 == |OrderMembers(o)|
    ensures var ms := OrderMembers(o)[1..]; Joined(MemberTexts(o)[1..]) == PrintMember(ms[0]) + PrintMembers(ms[1..])
  {
    SizesAre(o);
    hide Plain, MemberTexts, OrderMembers, PrintMember, PrintMembers, Joined;
    TextsArePrinted(o);
    JoinedIsPrinted(MemberTexts(o)[1..], OrderMembers(o)[1..]);
  }

  lemma PartingText(t: string, rest: string)
    requires |t| > 1 && t[|t| - 1] == '\"' && |rest| > 1 && rest[0] == '\"' && rest[1] == 's'
    ensures var b, w := 1 + |t|, "{" + (t + ("," + rest));
      Part("{" + t + "}", w, b) && StartsWith(w, b + 1, rest) && b + 1 + |rest| == |w|
  {
    var b, u, w := 1 + |t|, "{" + t + "}", "{" + (t + ("," + rest));
    assert forall i :: 1 <= i < b ==> u[i] == t[i - 1] == w[i];
    assert w[b + 1..b + 1 + |rest|] == rest;
    assert w[b + 1] == rest[0] && w[b + 2] == rest[1];
  }

  /** The order parses exactly if the ticker's fragment does, and then to the fragment's members with the other
      seven put in behind them. */
  lemma OrderIsFragmentPlusRest(o: OrderRequest)
    requires Plain(o.count) && Plain(o.price) && Plain(o.clientOrderId)
    ensures |OrderMembers(o)| == 8
    ensures match ParseJson(TickerFragment(o.ticker))
            case None => ParseJson(SerializeOrderRequest(o)).None?
            case Some(v) =>
              && v.JObject?
              && ParseJson(SerializeOrderRequest(o)) == Some(JObject(EmplaceAll(v.members, OrderMembers(o)[1..])))
  {
    hide ParseJson, Part, Ahead, RawMember, OrderMembers, EmplaceAll, SerializeOrderRequest, Plain;
    OrderParts(o);
    TextsTwin(TickerFragment(o.ticker), SerializeOrderRequest(o), 1 + |RawMember("ticker", o.ticker)|, OrderMembers(o)[1..]);
  }

  /** The fragment brings no value of its own for the key of this member. */
  ghost predicate NoOther(ms: seq<Member>, m: Member) { Find(ms, m.key).None? || Find(ms, m.key) == Some(m.value) }

  /** In an order that parses, a member behind the ticker has its value exactly if the fragment brings no other. */
  lemma MemberIsKeptExactly(o: OrderRequest, i: nat)
    requires Plain(o.count) && Plain(o.price) && Plain(o.clientOrderId) && 0 < i < 8
    ensures |OrderMembers(o)| == 8
    ensures match ParseJson(TickerFragment(o.ticker))
            case None => ParseJson(SerializeOrderRequest(o)).None?
            case Some(v) =>
              && v.JObject?
              && var json := ParseJson(SerializeOrderRequest(o));
                 && json.Some? && json.value.JObject?
                 && (Find(json.value.members, OrderMembers(o)[i].key) == Some(OrderMembers(o)[i].value)
                     <==> NoOther(v.members, OrderMembers(o)[i]))
  {
    SizesAre(o);
    hide ParseJson, OrderMembers, EmplaceAll, SerializeOrderRequest, TickerFragment, Plain, Find;
    OrderIsFragmentPlusRest(o);
    FoundInRest(o, i);
    var fragment := ParseJson(TickerFragment(o.ticker));
    if fragment.Some? { FindEmplaceAll(fragment.value.members, OrderMembers(o)[1..], OrderMembers(o)[i].key); }
  }

  lemma FoundInRest(o: OrderRequest, i: nat)
    requires 0 < i < 8
    ensures |OrderMembers(o)| == 8
    ensures Find(OrderMembers(o)[1..], OrderMembers(o)[i].key) == Some(OrderMembers(o)[i].value)
  {
    SizesAre(o);
    hide Find;
    var ms := OrderMembers(o)[1..];
    forall j | 0 <= j < i - 1 ensures ms[j].key != ms[i - 1].key { KeysDiffer(o, j + 1, i); }
    FindDistinct(ms, i - 1);
  }

  /** For any ticker: price and count come through exactly if the ticker's fragment is no object of its own, or
      is one that brings no other price and no other count. */
  lemma NumbersAreKeptExactly(o: OrderRequest)
    requires Plain(o.count) && Plain(o.price) && Plain(o.clientOrderId)
    ensures |OrderMembers(o)| == 8
    ensures KeepsNumbers(o) <==>
      match ParseJson(TickerFragment(o.ticker))
      case None => true
      case Some(v) => v.JObject? && NoOther(v.members, OrderMembers(o)[2]) && NoOther(v.members, OrderMembers(o)[3])
  {
    NumberMembers(o);
    hide ParseJson, OrderMembers, SerializeOrderRequest, TickerFragment, Plain, Find, NoOther;
    MemberIsKeptExactly(o, 2);
    MemberIsKeptExactly(o, 3);
  }

  lemma NumberMembers(o: OrderRequest)
    ensures |OrderMembers(o)| == 8
    ensures OrderMembers(o)[2] == Member("count", JText(o.count)) && OrderMembers(o)[3] == Member("price", JText(o.price))
  {}
}
