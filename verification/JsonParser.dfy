/** The JSON tree and the recursive-descent parser as a function of the input. */
module JsonTree {
  import opened Text
  import opened JsonLexing
  import opened JsonStrings

  const MAX_DEPTH: nat := 64

  /** Numbers are kept as their text, so a number and a string with the same text are the same value. */
  datatype JsonValue =
    | JNull
    | JBool(b: bool)
    | JText(text: string)
    | JArray(elements: seq<JsonValue>)
    | JObject(members: seq<Member>)

  datatype Member = Member(key: string, value: JsonValue)

  /** The order of `std::string`, which is the order in which a flat map keeps its keys. */
  predicate Less(a: string, b: string) {
    b != [] && (a == [] || a[0] < b[0] || (a[0] == b[0] && Less(a[1..], b[1..])))
  }

  function Find(ms: seq<Member>, key: string): Option<JsonValue> {
    if ms == [] then None else if ms[0].key == key then Some(ms[0].value) else Find(ms[1..], key)
  }

  function Insert(ms: seq<Member>, m: Member): seq<Member> {
    if ms == [] || Less(m.key, ms[0].key) then [m] + ms else [ms[0]] + Insert(ms[1..], m)
  }

  /** `flat_map::emplace`: the first value of a key wins. */
  function Emplace(ms: seq<Member>, m: Member): seq<Member> {
    if Find(ms, m.key).Some? then ms else Insert(ms, m)
  }

  lemma {:induction false} FindInsert(ms: seq<Member>, m: Member, key: string)
    requires Find(ms, m.key).None?
    ensures Find(Insert(ms, m), key) == if key == m.key then Some(m.value) else Find(ms, key)
  {
    var r := Insert(ms, m);
    if ms == [] || Less(m.key, ms[0].key) {
      assert r[1..] == ms;
    } else {
      FindInsert(ms[1..], m, key);
      assert r[1..] == Insert(ms[1..], m);
    }
  }

  lemma FindEmplace(ms: seq<Member>, m: Member, key: string)
    ensures Find(Emplace(ms, m), key) == if key == m.key && Find(ms, key).None? then Some(m.value) else Find(ms, key)
  {
    if Find(ms, m.key).None? { FindInsert(ms, m, key); }
  }

  lemma {:induction false} FindNothing(ms: seq<Member>, key: string)
    requires forall i :: 0 <= i < |ms| ==> ms[i].key != key
    ensures Find(ms, key).None?
  {
    if ms != [] { FindNothing(ms[1..], key); }
  }

  // ---- the parser as a function of input, token and position

  /** A parsed value and the position after it, or an error. */
  datatype Parsed<+T> = Parsed(value: T, next: nat) | Rejected

  function StringValue(token: Token): Option<string> {
    if token.hasEscapes then Decoded(token.text, 0) else Some(token.text)
  }

  function ParseValue(s: string, token: Token, pos: nat, depth: nat): (r: Parsed<JsonValue>)
    requires pos <= |s|
    ensures r.Parsed? ==> pos <= r.next <= |s|
    decreases |s| - pos, 3
  {
    match token.kind
    case LeftBrace =>
      if depth >= MAX_DEPTH then Rejected
      else (match ParseObject(s, pos, depth + 1)
            case Parsed(ms, next) => Parsed(JObject(ms), next)
            case Rejected => Rejected)
    case LeftBracket =>
      if depth >= MAX_DEPTH then Rejected
      else (match ParseArray(s, pos, depth + 1)
            case Parsed(vs, next) => Parsed(JArray(vs), next)
            case Rejected => Rejected)
    case String =>
      (match StringValue(token)
       case Some(t) => Parsed(JText(t), pos)
       case None => Rejected)
    case Number => Parsed(JText(token.text), pos)
    case True => Parsed(JBool(true), pos)
    case False => Parsed(JBool(false), pos)
    case Null => Parsed(JNull, pos)
    case _ => Rejected
  }

  function ParseObject(s: string, pos: nat, depth: nat): (r: Parsed<seq<Member>>)
    requires pos <= |s|
    ensures r.Parsed? ==> pos <= r.next <= |s|
    decreases |s| - pos, 2
  {
    match Lex(s, pos)
    case Bad => Rejected
    case Lexed(token, next) =>
      if token.kind == RightBrace then Parsed([], next) else ParseMembers(s, token, next, depth, [])
  }

  /** The loop over members: `token` is the next key, `ms` the object built so far. */
  function ParseMembers(s: string, token: Token, pos: nat, depth: nat, ms: seq<Member>): (r: Parsed<seq<Member>>)
    requires pos <= |s|
    ensures r.Parsed? ==> pos <= r.next <= |s|
    decreases |s| - pos, 1
  {
    if token.kind != String || StringValue(token).None? then Rejected
    else
      match AfterColon(s, pos)
      case Bad => Rejected
      case Lexed(first, p) =>
        match ParseValue(s, first, p, depth)
        case Rejected => Rejected
        case Parsed(v, q) =>
          var ms' := Emplace(ms, Member(StringValue(token).value, v));
          match Separator(s, q, RightBrace)
          case Stop(end) => Parsed(ms', end)
          case More(token', next) => ParseMembers(s, token', next, depth, ms')
          case Wrong => Rejected
  }

  /** A colon, then the first token of the member's value. */
  function AfterColon(s: string, pos: nat): (r: Lexed)
    requires pos <= |s|
    ensures r.Lexed? ==> pos < r.next <= |s|
  {
    match Lex(s, pos)
    case Bad => Bad
    case Lexed(colon, p) => if colon.kind == Colon then Lex(s, p) else Bad
  }

  /** What follows a member or an element: the closing token, or a comma and the next first token. */
  datatype Separation = Stop(end: nat) | More(token: Token, next: nat) | Wrong

  function Separator(s: string, pos: nat, closing: TokenKind): (r: Separation)
    requires pos <= |s|
    ensures r.Stop? ==> pos <= r.end <= |s|
    ensures r.More? ==> pos < r.next <= |s|
  {
    match Lex(s, pos)
    case Bad => Wrong
    case Lexed(sep, p) =>
      if sep.kind == closing then Stop(p)
      else if sep.kind != Comma then Wrong
      else
        match Lex(s, p)
        case Bad => Wrong
        case Lexed(token, q) => More(token, q)
  }

  function ParseArray(s: string, pos: nat, depth: nat): (r: Parsed<seq<JsonValue>>)
    requires pos <= |s|
    ensures r.Parsed? ==> pos <= r.next <= |s|
    decreases |s| - pos, 2
  {
    match Lex(s, pos)
    case Bad => Rejected
    case Lexed(token, next) =>
      if token.kind == RightBracket then Parsed([], next)
      else if token.kind == End then Rejected
      else ParseElements(s, token, next, depth, [])
  }

  /** The loop over elements: `token` is the next element's first token, `vs` the array built so far. */
  function ParseElements(s: string, token: Token, pos: nat, depth: nat, vs: seq<JsonValue>): (r: Parsed<seq<JsonValue>>)
    requires pos <= |s|
    ensures r.Parsed? ==> pos <= r.next <= |s|
    decreases |s| - pos, 4
  {
    match ParseValue(s, token, pos, depth)
    case Rejected => Rejected
    case Parsed(v, p) =>
      match Separator(s, p, RightBracket)
      case Stop(end) => Parsed(vs + [v], end)
      case More(token', next) => ParseElements(s, token', next, depth, vs + [v])
      case Wrong => Rejected
  }

  /** Exactly one value and then the end of input. */
  function ParseJson(s: string): Option<JsonValue> {
    match Lex(s, 0)
    case Bad => None
    case Lexed(first, p) =>
      match ParseValue(s, first, p, 0)
      case Rejected => None
      case Parsed(v, q) =>
        match Lex(s, q)
        case Bad => None
        case Lexed(end, _) => if end.kind == End then Some(v) else None
  }
}
