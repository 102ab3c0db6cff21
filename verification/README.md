# Kalshi trading client: a verified model

This project models the logic of a C++ trading client for the Kalshi exchange and proves what it promises. The client
reads order-book messages from a WebSocket, keeps a book, lets a mean-reversion strategy decide, and sends orders over
a kept-alive HTTP connection. The model follows the code function by function; sockets, clocks and random numbers are
inputs.

The source's own form is kept. A class that updates its fields is a Dafny class, a loop is a loop, and every such
method is proved equal to a specification function. The theorems are about those functions, for all inputs and all
runs.

## What is modelled and what is proved

**JSON** (`JsonLexer`, `JsonNumbers`, `JsonStrings`, `JsonUnicode`, `JsonParser`, `JsonParserObject`, `JsonPrinter`,
`JsonTokens`, `JsonPieces`, `JsonGrammar`, `JsonDocuments`). A pull lexer, a recursive-descent parser limited to 64
levels, string decoding with surrogate pairs, and the printer. Objects are key-sorted with unique keys and the first
duplicate wins; numbers are stored as text. A JSON text is a sequence of characters, one per byte of the source.
Printing a value and parsing it gives the value back exactly if it nests at most 64 levels with sorted unique keys,
and every parsed value is such a value. The last four files state RFC 8259 on its own, with blanks, words, escapes and
code units written out, and prove that the parser returns a value exactly for the texts of the documents that mean it,
with any blanks before, between and after their tokens.

**Two message decoders** (`KalshiMessages`, `KalshiDecoder`, `KalshiDecoderObject`, `DecoderAgreement`,
`MessageTexts`, `MessageFields`). One decoder builds a tree and extracts fields; the other makes a single pass, keeps
a handful of fields, skips the rest, and falls back to the first at an escaped string. On every input both accept or
both reject, and they return the same message. The proof runs both over the input in lockstep, through nested objects
and arrays, with the fields seen so far related to the partly built tree. Error texts differ between the two in the
source and are not modelled. `MessageTexts` shows which messages exist at all: exactly those whose kind fits their
payload and whose numbers fit their types, each with a text that decodes to it. `MessageFields` says field by field,
with the keys written out, what is read from a message or an order response whose members stand in any order, with
other members between them, any blanks, and numbers written as numbers.

**WebSocket frames** (`WebSocketFrames`, `WebSocketGrammar`, `WebSocketStream`). The parser is re-run on a growing
buffer. It is proved to accept exactly the encodings of legal frames under sections 5.2, 5.3 and 5.5 of RFC 6455,
including lengths spelled longer than needed; masking is stated bit by bit. A verdict never changes as bytes arrive,
so the frames received do not depend on how reads cut up the stream.

**HTTP** (`HttpResponse`, `HttpGrammar`, `HttpHeads`, `HttpMessages`, `HttpDelivery`, `HttpUnsteady`, `HttpClient`).
The response parser, chunked bodies, the read loop, and the client's send, retry and reuse rules. The parser returns a
response and its length exactly if the bytes received start with that response: a status line, fields, a blank line,
and a body in chunks, of the stated length, absent, or up to the end of the connection. Over any run against a server
that answers each request once, with signing, connecting, sending or reading failing anywhere, also in the middle of
an answer, every response returned belongs to its own request. Nothing is sent twice except after a failed send on a
reused connection.

**Numbers and the book** (`FixedPoint`, `MarketState`, `BookMeaning`, `BookOverflow`). Decimal parsing is exact: it
returns an integer if and only if the text denotes it at that scale and it fits. The book keeps an array of levels per
side and an incrementally maintained best price, which always equals the true maximum. Every level is what the last
snapshot said about its price plus all deltas since, in terms of the texts that were sent. The sum that a delta forms
without a guard is stated, and exactly when it can leave 64 bits.

**The bot** (`Strategy`, `FeedSync`, `Positions`, `TradingBot`, `TradingBotSafety`, `Session`, `CapBreach`). The
session loop tracks sequence numbers and drops the session at a gap. The exchange is modelled as numbered
subscriptions whose messages may be lost, repeated or reordered on the way, or arrive as texts that do not decode;
book messages carry a nonzero number. Over every run, across sessions and with any order responses lost: the book is
the exchange's book at the tracked number, every order is decided on it, the ledger accounts for every known fill, and
the position exceeds the cap by no more than the fills of orders whose response was lost. While every response can be
read, the exposure is the position and stays within the cap. That a response tells the truth is an assumption about
its `order_id` and `fill_count` members, not about what the bot makes of them. The strategy trades exactly when the
history of its calls says so. A whole session is also run from the bytes of the connection: its outcome does not
depend on how reads cut them up, and it is safe.

**Orders** (`OrderPath`, `OrderPathExact`, `OrderTicker`). An order built from a signal, written out and parsed again
carries the same fields, and the same price and count as exact numbers; its text is given byte for byte. With a plain
ticker, a client id that needs escaping can make the order unreadable but cannot change its price or count. With any
ticker, the order is read as the ticker's own fragment of it with the other members added behind. The reader meant
here is this client's own JSON parser, which keeps the first of equal keys.

## Promises that hold only under a condition

- A message of another channel that shares the book's subscription id moves the tracked sequence number unchecked
  (src/trading/trading_bot.cpp:191-193). With the book at number q, a message numbered n is safe exactly if n is 0, 1,
  q or q + 1 (`FeedSync.AdvanceIsSafeExactlyWithoutJump`). For any other n, `FeedSync.JumpLosesSync` builds an
  exchange and the text of a fill after which the book is wrong. The run theorems assume no such jump; channels with
  ids of their own never jump (`FeedSync.PrivateChannelsAreFaithful`).
- A delta without a number is applied unchecked (src/trading/trading_bot.cpp:181-182). On a synchronised book that is
  safe exactly if it changes nothing (`FeedSync.UnnumberedIsSafeExactlyIfIdle`); `FeedSync.UnnumberedLosesSync` gives
  a text that is not.
- The two length guards of the HTTP parser look at what has arrived so far. A response that is complete in the end can
  therefore fail on a prefix. It waits at every prefix exactly if its header ends by `kMaxHttpHeaderBytes` - 3 and
  each chunk-size line is shorter than 1024 bytes (`HttpDelivery.WaitsExactlyIfSteady`).
  `HttpUnsteady.UnsteadyResponse` is a response that fails on the way.
- The order serializer does not escape. Ticker and client id are recovered from the order text exactly if neither
  contains a quote, a backslash or a control character (`OrderPathExact.RecoversExactlyIfPlain`). A ticker that closes
  its own text can replace the price (`OrderPathExact.TickerReplacesPrice`). For a plain client id, price and count
  come through exactly if the text `{"ticker":"T"}` is rejected or brings no other price and no other count
  (`OrderTicker.NumbersAreKeptExactly`).
- Frames are built for any payload but parsed back only within the limits (`WebSocketFrames.FrameRoundTrip`).
- The configuration calls its maximum a hard cap on the position (include/strategy.hpp:14). The fill on an order whose
  response was lost is unknown to the bot until the fill channel delivers it, so the exposure equals the true position
  exactly if such fills add up to nothing (`Positions.ExposureThroughoutRun`). If responses can be lost, the cap is
  guaranteed exactly for configurations that never trade: those that allow no spread, ask for an edge above 996, or
  have an order size that is not positive or above the cap (`CapBreach.CapIsGuaranteedExactlyWithoutTrading`). For
  every other one `CapBreach.CapIsBroken` gives a run, from texts on the wire to orders, that exceeds it. How far it
  can be exceeded is bounded (`Positions.PositionStaysNearCap`).
- Levels are added without a guard (src/trading/market_state.cpp:71). Every sum of every run of at most n changes of
  size at most q fits in 64 bits if and only if n times q does (`BookOverflow.SumsFitExactlyIfProductDoes`).

## Model

| member | source | states |
|---|---|---|
| `JsonLexing.Lex` | src/encoding/json_lexer.cpp:12-50 | every token other than the end of input ends strictly after it starts and within the text, so both parsers terminate on all input |
| `JsonLexing.ScanStringFindsTheQuote` | src/encoding/json_lexer.cpp:52-83 | a string token ends at an index exactly if a quote stands there and the text before it is a well-formed string body; the escape flag says whether a backslash occurs |
| `JsonLexing.JsonLexer.constructor` | include/json_lexer.hpp:43-53 | a new lexer stands at the start of its text |
| `JsonLexing.JsonLexer.Next` | src/encoding/json_lexer.cpp:12-50 | the stateful lexer returns the specified token, advances to its end, and validates strings |
| `JsonLexing.JsonLexer.LexString` | src/encoding/json_lexer.cpp:52-83 | the string loop finds the closing quote and only accepts valid escapes |
| `JsonLexing.JsonLexer.SkipEscape` | src/encoding/json_lexer.cpp:64-79 | an escape is accepted exactly if it is a simple one or four hexadecimal digits, and exactly its length is skipped |
| `JsonLexing.JsonLexer.LexNumber` | src/encoding/json_lexer.cpp:85-116 | a number token is the longest number there, or an error |
| `JsonNumbers.NumberTokenInGrammar` | src/encoding/json_lexer.cpp:85-116 | every number token is in the grammar of section 6 of RFC 8259 |
| `JsonNumbers.NumberLexesWhole` | src/encoding/json_lexer.cpp:85-116 | every number of that grammar, followed by the end or a character that cannot extend it, is lexed whole |
| `JsonTokens.BlankIsSkippedExactly` | src/encoding/json_lexer.cpp:13-18 | a token may be looked for one character later exactly where a space, tab, line feed or carriage return stands |
| `JsonTokens.SpreadIsLexed` | src/encoding/json_lexer.cpp:12-50 | the texts of tokens by RFC 8259, with any blanks before, between and after them and no number run into, are lexed to those tokens |
| `JsonTokens.LexedIsSpread` | src/encoding/json_lexer.cpp:12-50 | a text that is lexed to the end consists of the texts of its tokens with blanks around them |
| `JsonPieces.PiecesAreABody` | src/encoding/json_lexer.cpp:52-83 | characters, escapes and code units by section 7 of RFC 8259, each written out, make up a string body; the escape flag tells whether any is escaped |
| `JsonPieces.PiecesAreDecoded` | src/encoding/json_parser.cpp:158-200 | decoding gives what the pieces stand for, and fails exactly where a surrogate has no partner |
| `JsonPieces.PairsAreCodePoints` | src/encoding/json_parser.cpp:177-195 | combining a surrogate pair is the inverse of the split in section 2.1 of RFC 2781 |
| `JsonStrings.DecodeUnicode` | src/encoding/json_parser.cpp:177-195 | one unit or one surrogate pair becomes its UTF-8 bytes, and a lone surrogate fails |
| `JsonStrings.DecodeJsonString` | src/encoding/json_parser.cpp:158-200 | the decoding loop stays in bounds on every string the lexer accepts and computes the decoded text |
| `JsonUnicode.DecodeFailsOnUnpaired` | src/encoding/json_parser.cpp:158-200 | decoding fails if and only if some escaped surrogate is unpaired |
| `JsonUnicode.OneCodePoint` | src/encoding/json_parser.cpp:19-35 | reading one UTF-8 sequence by section 3 of RFC 3629 yields a scalar value exactly where its encoding stands |
| `JsonUnicode.Utf8Inverse` | src/encoding/json_parser.cpp:19-35 | UTF-8 encoding and strict decoding are inverse to each other on all byte strings |
| `JsonUnicode.DecodedReadsAsCodePoints` | src/encoding/json_parser.cpp:158-200 | reading the decoded string as UTF-8 gives exactly the code points that escapes and literal text spell, or fails exactly where the literal bytes are not UTF-8, for every token that decodes |
| `JsonParsing.Parser.constructor` | src/encoding/json_parser.cpp:142-142 | a parser owns a lexer at the start of the text |
| `JsonParsing.Parser.StringValue` | src/encoding/json_parser.cpp:74-81 | a string token without escapes is taken verbatim, any other is decoded |
| `JsonParsing.Parser.ParseValue` | src/encoding/json_parser.cpp:41-68 | the value, or failure, and the lexer position after it |
| `JsonParsing.Parser.ParseObject` | src/encoding/json_parser.cpp:83-116 | the members sorted by key, the first of equal keys kept, and the position after the brace |
| `JsonParsing.Parser.ParseArray` | src/encoding/json_parser.cpp:118-139 | the elements in order and the position after the bracket |
| `JsonParsing.Parser.Parse` | src/encoding/json_parser.cpp:144-154 | one value and nothing after it |
| `JsonParsing.ParseJson` | src/encoding/json_parser.cpp:202-207 | the stateful parser computes the specified tree for every text |
| `JsonGrammar.DocIsRead` | src/encoding/json_parser.cpp:41-139 | wherever the tokens of a document stand, within 64 levels, the parser reads its meaning and stops right behind it, or rejects it if it has none |
| `JsonGrammar.DocOf` | src/encoding/json_parser.cpp:41-139 | every value that is read comes from the tokens of such a document |
| `JsonDocuments.DocumentParses` | src/encoding/json_parser.cpp:144-207 | the text of a document within 64 levels, with any blanks, parses to its meaning; it is rejected if a surrogate in it has no partner |
| `JsonDocuments.ParsedIsDocument` | src/encoding/json_parser.cpp:144-207 | every text that parses is such a document, and the result is its meaning |
| `JsonDocuments.ParserMatchesGrammar` | src/encoding/json_parser.cpp:202-207 | a text parses to a value if and only if it is the text of a document of RFC 8259, within 64 levels, that means this value |
| `JsonDocuments.BlanksDoNotMatter` | src/encoding/json_lexer.cpp:13-18 | a text that parses still does, to the same value, with any blanks around its tokens |
| `JsonDocuments.PrintedWithBlanks` | src/protocol/kalshi_messages.cpp:208-231 | a printed value with any blanks before, between and after its tokens parses to that value |
| `JsonDocuments.FirstMemberCounts` | src/encoding/json_parser.cpp:83-116 | a parsed object holds under each key the value of the first member with that key |
| `KalshiMessages.ParsePriceLevels` | src/protocol/kalshi_messages.cpp:105-124 | the levels of an array in order, or nothing if any element is not a pair of texts |
| `KalshiMessages.PriceLevelsPrefix` | src/protocol/kalshi_messages.cpp:107-119 | one bad level rejects the whole array, whatever follows it |
| `DecoderAgreement.DecoderRefinesTree` | src/protocol/kalshi_decoder.cpp:329-338 | on every text the single-pass decoder with its fallback and the tree decoder both reject or return the same message |
| `DecoderAgreement.ValueAgrees` | src/protocol/kalshi_decoder.cpp:129-150 | from any token, position and depth, skipping and parsing a value succeed or fail together and stop at the same position, up to the first escaped string |
| `DecoderAgreement.ObjectAgrees` | src/protocol/kalshi_decoder.cpp:79-105 | the same for objects, and the collected fields are those of the parsed object |
| `DecoderAgreement.MembersAgree` | src/protocol/kalshi_decoder.cpp:84-104 | the same from the middle of an object, for any members already read |
| `DecoderAgreement.ArrayAgrees` | src/protocol/kalshi_decoder.cpp:109-126 | the same for arrays |
| `DecoderAgreement.ElementsAgree` | src/protocol/kalshi_decoder.cpp:114-125 | the same from the middle of an array |
| `DecoderAgreement.ElementAgrees` | src/protocol/kalshi_decoder.cpp:171-191 | a price-level element, or a text inside one, is recorded as the tree decoder would see it |
| `DecoderAgreement.LevelsAgree` | src/protocol/kalshi_decoder.cpp:163-200 | one side of a snapshot: only the first occurrence counts, and validity is that of the tree decoder |
| `DecoderAgreement.MsgMemberAgrees` | src/protocol/kalshi_decoder.cpp:202-216 | a member of the message object keeps all collected fields equal to the tree's, first occurrence only |
| `DecoderAgreement.RootMemberAgrees` | src/protocol/kalshi_decoder.cpp:218-234 | the same for a member of the root object |
| `DecoderAgreement.BuildAgrees` | src/protocol/kalshi_decoder.cpp:273-326 | building from the fields equals extracting from the tree, for every kind of message and every missing field |
| `DecoderAgreement.DeltaAgrees` | src/protocol/kalshi_messages.cpp:83-103 | the same for deltas |
| `DecoderAgreement.SnapshotAgrees` | src/protocol/kalshi_messages.cpp:126-154 | the same for snapshots |
| `DecoderAgreement.FillAgrees` | src/protocol/kalshi_messages.cpp:155-179 | the same for fills |
| `KalshiDecoderObject.Decoder.constructor` | src/protocol/kalshi_decoder.cpp:66-66 | a decoder starts at the beginning with no fallback asked for |
| `KalshiDecoderObject.Decoder.Next` | src/protocol/kalshi_decoder.cpp:68-75 | the next token; an escaped string fails and sets the fallback flag, and nothing else does |
| `KalshiDecoderObject.Decoder.ForEachMember` | src/protocol/kalshi_decoder.cpp:79-105 | the member loop collects what the specification collects and ends where it ends |
| `KalshiDecoderObject.Decoder.ForEachElement` | src/protocol/kalshi_decoder.cpp:109-126 | the same for the element loop |
| `KalshiDecoderObject.Decoder.SkipValue` | src/protocol/kalshi_decoder.cpp:129-150 | the same for skipping a value |
| `KalshiDecoderObject.Decoder.WalkLevels` | src/protocol/kalshi_decoder.cpp:163-200 | the same for a side of price levels |
| `KalshiDecoderObject.Decoder.TakeElement` | src/protocol/kalshi_decoder.cpp:171-191 | the same for the callbacks on array elements |
| `KalshiDecoderObject.Decoder.TakeMsgMember` | src/protocol/kalshi_decoder.cpp:202-216 | the same for a member of the message object |
| `KalshiDecoderObject.Decoder.TakeRootMember` | src/protocol/kalshi_decoder.cpp:218-234 | the same for a member of the root object |
| `KalshiDecoderObject.Decoder.Decode` | src/protocol/kalshi_decoder.cpp:237-258 | the whole pass over the text |
| `KalshiDecoderObject.DecodeMessage` | src/protocol/kalshi_decoder.cpp:329-338 | the stateful decoder returns, for every text, what parsing the tree and extracting the message returns |
| `MessageTexts.DecodableExactlyIfWellFormed` | src/protocol/kalshi_messages.cpp:234-266 | some text decodes to a message if and only if its kind fits its payload and its numbers fit their types |
| `MessageTexts.TextDecodes` | src/protocol/kalshi_messages.cpp:234-266 | the text written for a well-formed message, of any kind and with any strings in it, decodes to it |
| `MessageTexts.UnnumberedDecodes` | src/protocol/kalshi_messages.cpp:244-249 | the same text without its number decodes to the message with number 0 |
| `MessageFields.U64IsRead` | src/protocol/kalshi_messages.cpp:69-81 | a text is read as n exactly if it is n in decimal digits, leading zeros allowed, and n fits in 64 bits |
| `MessageFields.WordIsRead` | src/protocol/kalshi_messages.cpp:245-246 | sid and seq are the number cut to 32 bits, and 0 if there is none |
| `MessageFields.DeltaIsRead` | src/protocol/kalshi_messages.cpp:83-103 | a delta is read if and only if the seven keys hold its fields |
| `MessageFields.SnapshotIsRead` | src/protocol/kalshi_messages.cpp:126-154 | a snapshot is read if and only if the keys hold its fields; a side that is missing or no array is empty |
| `MessageFields.FillIsRead` | src/protocol/kalshi_messages.cpp:155-179 | a fill is read if and only if the four keys hold its fields, the action as buy or sell |
| `MessageFields.MessageIsRead` | src/protocol/kalshi_messages.cpp:234-266 | a message is read from a value if and only if it is an object that holds it, field by field |
| `MessageFields.MessageTextIsRead` | src/protocol/kalshi_messages.cpp:234-266 | the same for a text with its members in any order, others between them and any blanks: the first member of each key counts |
| `MessageFields.NumberSaysItsDigits` | src/encoding/json_parser.cpp:41-68 | a number as a member's value is read as its text |
| `MessageFields.OrderResponseIsRead` | src/protocol/kalshi_messages.cpp:268-295 | an order response is read if and only if its keys hold its texts and ts_ms is a 64-bit number; a missing client id reads as empty |
| `MessageFields.ResponseTextIsRead` | src/protocol/kalshi_messages.cpp:268-295 | the same for a text with its members in any order, others between them and any blanks |
| `JsonPrinter.JsonQuote` | src/protocol/kalshi_messages.cpp:184-204 | the quoting loop computes the escaped, quoted text |
| `JsonPrinter.EscapeReadsBack` | src/protocol/kalshi_messages.cpp:184-204 | the escaped form of every string is a valid string body and decodes to that string |
| `JsonDocuments.EscapeIsShort` | src/protocol/kalshi_messages.cpp:184-204 | each character is printed as one piece that stands for it, and none is shorter, except for backspace and form feed |
| `JsonPrinter.ToJsonString` | src/protocol/kalshi_messages.cpp:208-231 | the recursive printer computes the printed text |
| `JsonPrinter.ArrayToString` | src/protocol/kalshi_messages.cpp:218-222 | elements separated by commas in brackets |
| `JsonPrinter.ObjectToString` | src/protocol/kalshi_messages.cpp:224-227 | members in key order separated by commas in braces |
| `JsonPrinter.ValueReadsBack` | src/protocol/kalshi_messages.cpp:208-231 | wherever a printed value stands in a text, the parser reads that value and stops right behind it |
| `JsonPrinter.ObjectReadsBack` | src/encoding/json_parser.cpp:83-116 | printed members, in any order and with duplicates, parse to the object their insertion one by one gives |
| `JsonPrinter.EmplaceSorted` | src/encoding/json_parser.cpp:83-116 | inserting the members of a sorted object one by one rebuilds it |
| `JsonPrinter.PrintThenParse` | src/protocol/kalshi_messages.cpp:208-231 | parsing the printed value gives it back if and only if it nests at most 64 levels and its objects are sorted with unique keys |
| `JsonPrinter.ParsedIsPrintable` | src/encoding/json_parser.cpp:41-154 | every value the parser returns is of that kind |
| `JsonPrinter.ParsePrintParse` | src/protocol/kalshi_messages.cpp:208-231 | parsing, printing and parsing again gives the same value for every accepted text |
| `FixedPoint.ParseFixedIsExact` | include/fixed_point.hpp:12-60 | the result is n if and only if the text is an optional minus, digits and at most one point, its value times the scale is exactly n, and n fits in 63 bits and a sign |
| `FixedPoint.DenotesExactly` | include/fixed_point.hpp:12-60 | a text denotes a number exactly if it is a minus or nothing, digits, and a point with digits or nothing, at least one digit in all, and its digits over the power of ten of the point are that number at the scale |
| `FixedPoint.ScaledIsTheOnlySolution` | include/fixed_point.hpp:38-58 | the digits kept, padded to the scale, are the only integer with that value, and there is one exactly if the dropped digits are zero |
| `FixedPoint.OverflowIsFinal` | include/fixed_point.hpp:45-47 | once the digits read exceed the limit no continuation is representable, so the guard rejects nothing it should not |
| `FixedPoint.ReadBody` | include/fixed_point.hpp:29-52 | the digit loop keeps the value, the digit counts and the point, never exceeds 63 bits, and gives up only on hopeless text |
| `FixedPoint.ScaleUp` | include/fixed_point.hpp:54-58 | the scaling loop multiplies by the power of ten or reports that the product does not fit |
| `FixedPoint.ParseFixed` | include/fixed_point.hpp:12-60 | the imperative parser computes the specified result |
| `MarketBook.SideHoldsLastEntry` | src/trading/market_state.cpp:38-46 | a side is accepted exactly if every entry is well formed; each price holds the quantity of its last entry, or 0 |
| `MarketBook.BestIsTheMaximum` | src/trading/market_state.cpp:26-31 | the scan returns a price exactly if it is the largest with a positive level, and 0 exactly if there is none |
| `MarketBook.IncrementalBest` | src/trading/market_state.cpp:81-84 | the incremental rule gives the best price of the changed side, also when levels are negative |
| `MarketBook.LevelsStayInRange` | src/trading/market_state.cpp:34-86 | after n changes of size at most q, malformed and clamped ones included, every level lies between -q and n times q |
| `BookMeaning.DeltaIsApplied` | src/trading/market_state.cpp:56-86 | a delta with a side, a price in thousandths strictly between 0 and 1 dollar and a quantity in hundredths adds to that level; below zero it is emptied and reported; any other delta is malformed |
| `BookMeaning.SnapshotIsApplied` | src/trading/market_state.cpp:34-54 | a snapshot is accepted exactly if every entry can be read, and then every level of both sides is the last entry for its price, or 0 |
| `BookMeaning.BookHoldsWhatWasSent` | src/trading/market_state.cpp:34-86 | after any messages every level is what the last snapshot said plus all deltas since, as numbers denoted by the texts sent |
| `BookMeaning.BestBid` | include/market_state.hpp:66-68 | the best bid is a price exactly if it is the highest with a positive YES level |
| `BookMeaning.BestAsk` | include/market_state.hpp:70-72 | the best ask is a price exactly if it is the lowest at whose complement to 1 dollar the NO level is positive |
| `BookMeaning.EmptyBookQuotesNothing` | include/market_state.hpp:49-72 | an empty book has no best prices |
| `BookOverflow.QuantitiesAddUp` | src/trading/market_state.cpp:70-72 | a snapshot and a delta with any two readable quantities leave a level of their sum |
| `BookOverflow.LevelLeavesRange` | src/trading/market_state.cpp:70-72 | at every price two messages take the level out of 64 bits |
| `BookOverflow.SumBecomesTheLevel` | src/trading/market_state.cpp:70-79 | the unguarded sum exists for exactly the deltas that are not malformed; a negative one is clamped and reported, any other is the new level |
| `BookOverflow.SumFits` | src/trading/market_state.cpp:71-71 | after fewer than n changes of size at most q the next sum fits in 64 bits if n times q does |
| `BookOverflow.RepeatedOverflows` | src/trading/market_state.cpp:71-71 | otherwise n equal deltas at any price form a sum that does not fit |
| `BookOverflow.SumsFitExactlyIfProductDoes` | src/trading/market_state.cpp:71-71 | every sum of every run of at most n changes of size at most q fits in 64 bits if and only if n times q does |
| `MarketBook.ScanBest` | src/trading/market_state.cpp:26-31 | the downward loop computes the best price at or below a start |
| `MarketBook.MarketState.constructor` | include/market_state.hpp:49-54 | a new book is empty on both sides |
| `MarketBook.MarketState.FillSide` | src/trading/market_state.cpp:38-46 | the scratch array holds the side, or an entry was malformed |
| `MarketBook.MarketState.ApplySnapshot` | src/trading/market_state.cpp:34-54 | the book becomes the snapshot with true bests; a malformed snapshot leaves everything as it was |
| `MarketBook.MarketState.AddToLevel` | src/trading/market_state.cpp:70-84 | one level changes, is clamped at zero, and the best price stays true |
| `MarketBook.MarketState.ApplyDelta` | src/trading/market_state.cpp:56-86 | the update, the clamp report or the refusal, each with its whole new state and true bests |
| `MarketBook.MarketState.BestYesBid` | include/market_state.hpp:66-68 | the largest price with a positive level, and none exactly if there is none |
| `MarketBook.MarketState.BestYesAsk` | include/market_state.hpp:70-72 | the lowest ask that any bid on the other side implies, and none exactly if there is none |
| `WebSocketGrammar.ParserMatchesGrammar` | src/protocol/frame_parser.cpp:6-127 | on any bytes the parser returns a frame and length if and only if those bytes are an encoding of that frame, legal by sections 5.2, 5.3 and 5.5 of RFC 6455, with its length in any of three spellings and its payload masked bit by bit |
| `WebSocketGrammar.ParsedIsEncoded` | src/protocol/frame_parser.cpp:19-126 | whatever is accepted is a legal frame in one of its encodings |
| `WebSocketGrammar.EncodingParses` | src/protocol/frame_parser.cpp:19-126 | every encoding of every legal frame is accepted and consumed whole |
| `WebSocketGrammar.BuiltIsShortest` | src/protocol/frame_builder.cpp:8-61 | the builder writes a final, masked frame of that opcode, key and payload by sections 5.2 and 5.3 of RFC 6455, and no encoding of it is shorter |
| `WebSocketGrammar.XorFlipsBits` | src/protocol/frame_parser.cpp:116-120 | masking a byte flips exactly the bits that are set in the key byte |
| `WebSocketGrammar.MaskedIsMasked` | src/protocol/frame_builder.cpp:57-59 | the masked payload is the only byte string that section 5.3 of RFC 6455 allows for a payload and a key |
| `WebSocketGrammar.NetworkOrder` | src/protocol/frame_parser.cpp:40-75 | two and eight bytes are read most significant byte first |
| `WebSocketFrames.FrameParser` | src/protocol/frame_parser.cpp:6-127 | the stage-by-stage parser computes the specified result |
| `WebSocketFrames.ApplyMask` | src/protocol/frame_parser.cpp:116-120 | the unmasking loop computes the masked bytes, which `WebSocketGrammar.MaskedIsMasked` describes bit by bit |
| `WebSocketFrames.FrameBuilder` | src/protocol/frame_builder.cpp:8-61 | the bytes built for an opcode, a payload and a mask key, and nothing if no key could be made |
| `WebSocketFrames.MaskedTwice` | src/protocol/frame_parser.cpp:116-120 | masking twice with the same key restores the payload |
| `WebSocketFrames.BigEndianReadsBack` | src/protocol/frame_builder.cpp:8-61 | lengths written in network byte order read back |
| `WebSocketFrames.ResultIsStable` | src/protocol/frame_parser.cpp:9-126 | a frame or a malformed verdict is unchanged by any further bytes |
| `WebSocketFrames.PrefixIsIncomplete` | src/protocol/frame_parser.cpp:9-126 | every strict prefix of a frame asks for more |
| `WebSocketFrames.IncompleteIsShort` | src/protocol/frame_parser.cpp:84-111 | the parser never waits on more than the largest payload plus 13 bytes |
| `WebSocketFrames.FrameRoundTrip` | src/protocol/frame_builder.cpp:8-61 | parsing the built bytes returns the frame and consumes all of it if and only if the payload is at most 16 MiB, or 125 bytes in a control frame |
| `WebSocketStream.WebSocket.constructor` | include/web_socket.hpp:6-8 | the connection starts with an empty buffer |
| `WebSocketStream.WebSocket.ReceiveFrame` | src/network/web_socket.cpp:86-104 | a frame, bad data or a failed read, depending on the pending bytes alone and not on how reads cut them; the buffer stays bounded |
| `WebSocketStream.WebSocket.ReceiveAll` | src/network/web_socket.cpp:86-104 | repeated receiving yields the frames of the stream for every segmentation |
| `WebSocketStream.SentIsReceived` | src/network/web_socket.cpp:86-104 | frames sent one after another are received one after another, unchanged |
| `HttpResponses.ParseHeaders` | src/protocol/http_response.cpp:36-82 | the line loop computes status, version, length, chunking and keep-alive, or fails |
| `HttpResponses.ContentLengthsAgree` | src/protocol/http_response.cpp:63-71 | in accepted headers every Content-Length line has the same value, and it is the one used |
| `HttpResponses.DecodeChunked` | src/protocol/http_response.cpp:84-125 | the chunk loop computes the body and end, or waits, or fails |
| `HttpResponses.SkipTrailers` | src/protocol/http_response.cpp:103-114 | the end of the trailer section, or none yet |
| `HttpResponses.ParseHttpResponse` | src/protocol/http_response.cpp:128-195 | the response parser, with framing tested in the order chunked, length, bodyless status, close |
| `HttpGrammar.StatusLineIsRead` | src/protocol/http_response.cpp:40-48 | a status line is accepted exactly if it is HTTP/1., a version digit, a blank, three digits from 100 to 599 and anything; version 0 is noted |
| `HttpGrammar.FieldIsRead` | src/protocol/http_response.cpp:22-61 | a field line is split at its first colon, and exactly the spaces and tabs around the value are cut off |
| `HttpGrammar.FieldsAreRead` | src/protocol/http_response.cpp:51-79 | fields are accepted exactly if all Content-Length values are the same 64-bit number; the last Transfer-Encoding and the last decisive Connection count, names and words in any case |
| `HttpHeads.HeadIsFound` | src/protocol/http_response.cpp:132-142 | a head of lines without a break in them ends at the first blank line |
| `HttpHeads.HeadIsRead` | src/protocol/http_response.cpp:36-82 | a head is accepted exactly if its status line and fields are, and what is read is what they say |
| `HttpHeads.HeadBehind` | src/protocol/http_response.cpp:36-82 | every accepted head is a status line and well-formed fields |
| `HttpMessages.ChunkedExactly` | src/protocol/http_response.cpp:84-125 | a body and its end are decoded if and only if chunks by section 7.1 of RFC 9112 with that body stand there, up to 16 MiB |
| `HttpMessages.ParserMatchesGrammar` | src/protocol/http_response.cpp:128-195 | the parser returns a response and a length if and only if the bytes start with it: status, keep-alive and body are those of the status line, the fields and the body rule that applies |
| `HttpMessages.LengthBodyIsReturned` | src/protocol/http_response.cpp:166-178 | with a Content-Length of at most 16 MiB exactly so many bytes behind the blank line are the body, whatever follows |
| `HttpMessages.ChunkedBodyIsReturned` | src/protocol/http_response.cpp:152-164 | a chunked response has the joined data as its body and ends behind its last line, whatever follows |
| `HttpMessages.OtherBodiesAreReturned` | src/protocol/http_response.cpp:180-194 | without either, informational responses, 204 and 304 have no body, and any other has all bytes up to the end and forbids reuse |
| `HttpMessages.EndOfStreamDecides` | src/protocol/http_response.cpp:128-195 | at the end of the stream the parser never asks for more, and keeps every decision made before |
| `HttpDelivery.CompleteIsStable` | src/protocol/http_response.cpp:128-195 | once a prefix yields a response, every extension yields the same response and byte count |
| `HttpDelivery.WaitsExactlyIfSteady` | src/protocol/http_response.cpp:88-93 | a complete response makes the parser wait at every shorter prefix if and only if header and chunk-size lines are short enough |
| `HttpDelivery.SteadyPrefix` | src/protocol/http_response.cpp:132-142 | with short enough lines no shorter prefix fails or completes |
| `HttpDelivery.UnsteadyPrefix` | src/protocol/http_response.cpp:132-142 | otherwise some shorter prefix fails |
| `HttpUnsteady.UnsteadyResponse` | src/protocol/http_response.cpp:88-93 | there is a complete response that makes the parser fail on a prefix |
| `HttpUnsteady.LastChunkCompletes` | src/protocol/http_response.cpp:88-114 | under any chunked header the last chunk with any extension completes the response |
| `HttpUnsteady.LongLineIsUnsteady` | src/protocol/http_response.cpp:88-93 | and that response is steady if and only if its size line is shorter than 1024 bytes |
| `HttpDelivery.ChunkedRoundTrip` | src/protocol/http_response.cpp:84-125 | a body split into chunks by section 7.1 of RFC 9112, with any size spelling, extensions and trailers, decodes to the body and its exact end whatever follows |
| `HttpDelivery.ChunkedIsStable` | src/protocol/http_response.cpp:84-125 | a decoded chunked body is unchanged by further bytes |
| `HttpDelivery.ChunkedPrefix` | src/protocol/http_response.cpp:84-125 | every shorter prefix of it waits if the size lines are short |
| `HttpDelivery.LongChunkLineFails` | src/protocol/http_response.cpp:89-92 | a size line at or over the limit makes some prefix fail |
| `HttpClients.ReadIsFirstResponse` | src/protocol/http_client.cpp:38-58 | for every segmentation the read loop returns the first response of the bytes and leaves the rest, and it does not fail on a steady one |
| `HttpClients.CompletePrefix` | src/protocol/http_client.cpp:40-46 | the response is returned as soon as its own bytes are there |
| `HttpClients.CloseDelimitedEndsConnection` | src/protocol/http_response.cpp:186-194 | a body that ends with the connection takes all bytes and forbids reuse |
| `HttpClients.HttpClient.constructor` | include/http_client.hpp:22-37 | a new client has no connection, no bytes and has opened nothing |
| `HttpClients.HttpClient.OpenConnection` | src/protocol/http_client.cpp:11-21 | opening drops the old connection and its buffer even when it fails |
| `HttpClients.HttpClient.ReadResponse` | src/protocol/http_client.cpp:38-58 | the buffer loop returns and leaves what the specification says |
| `HttpClients.HttpClient.Request` | src/protocol/http_client.cpp:60-104 | the new state, the response and the exact order of opens, sends and reads; nothing at all if signing fails |
| `HttpClients.RequestSendsSafely` | src/protocol/http_client.cpp:81-103 | at most one successful send; a second send only after a failed one on a reused connection and over a new connection; none after a read |
| `HttpClients.RequestSendsExactly` | src/protocol/http_client.cpp:60-93 | the first send happens exactly if signing succeeds and there is a connection; the second exactly if the first failed on a reused connection and a new one opened; every opened connection is counted |
| `HttpClients.ConnectionIsKeptExactly` | src/protocol/http_client.cpp:94-104 | a connection is kept exactly by a response that allows it, and a failed opening leaves no bytes behind |
| `HttpClients.ReadKeepsItsBytes` | src/protocol/http_client.cpp:38-58 | the buffer is left with the bytes received in order, and loses some only to a response that was returned |
| `HttpClients.AnswerIsRead` | src/protocol/http_client.cpp:38-58 | a self-delimited answer, cut up in any way, is returned and leaves the buffer empty |
| `HttpClients.CutIsNotComplete` | src/protocol/http_client.cpp:48-55 | when a read fails in the middle of a self-delimited answer, the last look at the buffer finds no response |
| `HttpClients.CutRead` | src/protocol/http_client.cpp:38-58 | of an answer or its beginning, however cut up, the read loop returns the server's response with nothing left over, or fails |
| `HttpClients.ExchangeIsMatched` | src/protocol/http_client.cpp:60-104 | a request on a clean client returns the answer to it or nothing and leaves the client clean, whatever fails; if the answer arrives whole it is returned |
| `HttpClients.ResponsesMatchRequests` | src/protocol/http_client.cpp:60-104 | over any run, with failures anywhere, every response is the answer to its own request, which was sent; a sent request whose answer arrives whole gets it |
| `Strategies.MeanReversionStrategy.constructor` | include/strategy.hpp:28-36 | no average and no order yet |
| `Strategies.MeanReversionStrategy.OnBookUpdate` | src/trading/strategy.cpp:6-46 | the new state and the decision, from the best prices of the book |
| `Strategies.MeanReversionStrategy.OnTopOfBook` | src/trading/strategy.cpp:10-46 | the same for given best prices |
| `Strategies.MeanReversionStrategy.Choose` | src/trading/strategy.cpp:28-41 | the decision after the average is updated |
| `Strategies.AverageStaysInRange` | src/trading/strategy.cpp:13-26 | over every run the average exists exactly once a usable book was seen, and lies within any bounds on the mid prices seen |
| `Strategies.DistanceShrinks` | src/trading/strategy.cpp:21-24 | an update leaves exactly the fraction decay of the distance between the average and the mid |
| `Strategies.AverageApproachesMid` | src/trading/strategy.cpp:13-26 | while the mid stays the same, the distance left is the first distance times the decay over all updates since |
| `Strategies.LastIsKept` | src/trading/strategy.cpp:26-26 | the time the next decay counts from is that of the last usable book |
| `Strategies.TradesExactlyWhen` | src/trading/strategy.cpp:28-45 | over any run under a monotone clock: an order is placed exactly if the warmup since the first usable book is over, the spread is narrow, every earlier order is old enough, and the ask is below or the bid above the average by the edge within the cap; it buys at the ask or else sells at the bid |
| `Strategies.NoSignalBeforeWarmup` | src/trading/strategy.cpp:28-41 | a signal comes no earlier than the warmup after the first usable book, at the touch, and never over the cap |
| `Strategies.SignalsAreApart` | src/trading/strategy.cpp:32-44 | under a monotone clock two signals are at least the cooldown apart |
| `Strategies.SignalRateIsBounded` | src/trading/strategy.cpp:32-44 | a window of length T holds at most T / cooldown + 1 signals |
| `FeedSync.MessageKeepsSync` | src/trading/trading_bot.cpp:179-210 | a genuine message keeps the book equal to the exchange's at the tracked number, never clamps or stops, and ends the session exactly at a gap |
| `BookMeaning.VerdictIsExact` | src/trading/trading_bot.cpp:182-210 | for every message: a delta out of sequence or below zero ends the session, a book message that cannot be read stops the bot, any other book message is traded on, and everything else is passed over |
| `FeedSync.RunStaysInSync` | src/trading/trading_bot.cpp:151-217 | the same at every point of every run over any number of sessions, with messages lost, repeated, reordered or undecodable |
| `FeedSync.EveryTradeSeesTheExchangeBook` | src/trading/trading_bot.cpp:195-217 | whenever the strategy is called the book is the exchange's at the number of the message just applied |
| `FeedSync.PrivateChannelsAreFaithful` | src/trading/trading_bot.cpp:191-193 | if other channels have ids of their own, the run theorems need no further assumption |
| `FeedSync.AdvanceIsSafeExactlyWithoutJump` | src/trading/trading_bot.cpp:191-193 | over all texts that decode to another channel's message, the unchecked advance keeps every book in sync if and only if the number is 0, 1, the tracked one or the next |
| `FeedSync.JumpLosesSync` | src/trading/trading_bot.cpp:191-193 | for every other number there is an exchange, a book and the text of a fill after which the book is wrong |
| `FeedSync.UnnumberedIsSafeExactlyIfIdle` | src/trading/trading_bot.cpp:181-193 | a delta without a number keeps a synchronised book in sync if and only if it changes nothing |
| `FeedSync.UnnumberedLosesSync` | src/trading/trading_bot.cpp:181-193 | there is a text of the exchange's own delta, without its number, after which the strategy is asked about a wrong book |
| `Positions.PlacedKeepsBalance` | src/trading/trading_bot.cpp:68-80 | an order and a response whose members tell the truth keep the ledger equal to delivered plus outstanding fills, and move the true position by the fill |
| `Positions.ReportIsRead` | src/trading/trading_bot.cpp:58-72 | an order id and a fill count are read if and only if the members order_id and fill_count hold them, remaining_count holds a text and ts_ms a 64-bit number |
| `Positions.ResponseIsBooked` | src/trading/trading_bot.cpp:79-80 | a reported fill is added to the unconfirmed amount of its order, bought as positive and sold as negative, and nothing else changes; an unreadable response or none filled changes nothing |
| `Positions.FillIsBooked` | src/trading/trading_bot.cpp:85-100 | a fill moves its market's position and takes as much off its order's unconfirmed amount, which is dropped if it would reach zero or change its sign; nothing else changes |
| `Positions.UnreadableFillIsIgnored` | src/trading/trading_bot.cpp:86-90 | a fill whose count is no whole number changes nothing |
| `Positions.FillKeepsBalance` | src/trading/trading_bot.cpp:85-100 | a fill, in any pieces, keeps the ledger balanced and the true position unchanged |
| `Positions.ExposureIsTrueUpToLostResponses` | src/trading/trading_bot.cpp:42-44 | in a balanced ledger exposure and true position differ by the undelivered fills of orders whose response was lost |
| `Positions.RunIsBalanced` | src/trading/trading_bot.cpp:42-103 | the ledger is balanced at every point of every run |
| `Positions.ExposureThroughoutRun` | src/trading/trading_bot.cpp:42-103 | at every point the exposure is the true position if and only if those lost fills add up to nothing |
| `Positions.HiddenIsLost` | src/trading/trading_bot.cpp:58-72 | what lost responses hide is between minus the lost sales and the lost purchases |
| `Positions.PlacedKeepsCap` | src/trading/trading_bot.cpp:46-80 | an order the strategy asked for keeps the position within the cap plus the fills of lost responses, whether or not its own response is read |
| `Positions.FillKeepsCap` | src/trading/trading_bot.cpp:85-100 | so does a fill |
| `Positions.PositionStaysNearCap` | src/trading/trading_bot.cpp:42-103 | at every point of every run, whatever responses were lost, the position exceeds the cap by no more than the fills of the orders whose response was lost |
| `Positions.PositionStaysWithinCap` | src/trading/trading_bot.cpp:42-103 | if every response could be read, exposure and true position are equal and within the cap at every point of every run |
| `TradingBots.PositionTracker.constructor` | include/position_tracker.hpp:10-12 | no positions |
| `TradingBots.PositionTracker.UpdatePositions` | include/position_tracker.hpp:14-16 | adds to one ticker, leaves the others alone, and keeps every position the net of its updates |
| `TradingBots.PositionTracker.GetPosition` | include/position_tracker.hpp:17-20 | the net of all updates ever made to the ticker |
| `TradingBots.TradingBot.constructor` | src/trading/trading_bot.cpp:37-38 | the bot starts flat with an empty book |
| `TradingBots.TradingBot.StartSession` | src/trading/trading_bot.cpp:151-152 | a session starts with an empty book and no subscription; the ledger and the old number stay |
| `TradingBots.TradingBot.Exposure` | src/trading/trading_bot.cpp:42-44 | the fold over the unconfirmed fills, in any order, is the position plus their sum |
| `TradingBots.TradingBot.Submit` | src/trading/trading_bot.cpp:58-80 | the ledger after a response: what its fill_count member reports is booked under its order_id, and nothing if it cannot be read |
| `TradingBots.TradingBot.OnFill` | src/trading/trading_bot.cpp:85-100 | the ledger after a fill, with the entry removed when it is used up or changes sign |
| `TradingBots.TradingBot.Track` | src/trading/trading_bot.cpp:182-193 | a gap is reported and changes nothing; otherwise the tracked id and number advance |
| `TradingBots.TradingBot.Apply` | src/trading/trading_bot.cpp:195-210 | the book or the ledger after the message, and what becomes of the session |
| `TradingBots.TradingBot.OnBookChanged` | src/trading/trading_bot.cpp:212-217 | the strategy is asked with the current exposure and its order is booked |
| `TradingBots.TradingBot.OnText` | src/trading/trading_bot.cpp:170-217 | the whole step for one text frame, from raw text to new book, ledger, strategy state and order |
| `TradingBotSafety.StepIsSafe` | src/trading/trading_bot.cpp:151-217 | every step, also one whose order response is lost, keeps the book in sync, the ledger balanced and the position within the cap plus lost fills |
| `TradingBotSafety.BotIsSafe` | src/trading/trading_bot.cpp:151-217 | the same at every point of every run, across sessions |
| `TradingBotSafety.BotIsWithinCap` | src/trading/trading_bot.cpp:42-103 | while every response so far could be read, the exposure is the exchange's position and within the cap |
| `CapBreach.CapIsGuaranteedExactlyWithoutTrading` | src/trading/trading_bot.cpp:42-80 | for every decay law, no run with lost responses exceeds the cap if and only if the configuration can never trade |
| `CapBreach.CapIsBroken` | src/trading/trading_bot.cpp:58-72 | every configuration that can trade has a run, of real texts delivered in order in each session under a clock that never runs backwards, that exceeds the cap |
| `CapBreach.IdleKeepsCap` | src/trading/strategy.cpp:28-41 | a configuration that cannot trade never exceeds the cap, whatever the run |
| `TradingBotSafety.EveryOrderSeesTheExchangeBook` | src/trading/trading_bot.cpp:212-217 | every order of every run is decided on the exchange's book at the message just applied |
| `Sessions.RunSession` | src/trading/trading_bot.cpp:151-228 | the session loop over a real connection and bot leaves the state that the frames of the byte stream give, for every way reads deliver it |
| `Sessions.SessionHandlesItsTexts` | src/trading/trading_bot.cpp:156-217 | a session handles every text frame before the close frame, in order, up to the first that ends it, and nothing else |
| `Sessions.TextArrives` | src/trading/trading_bot.cpp:170-171 | the text handled is the text whose bytes were sent |
| `Sessions.UndecodableTextPassesBy` | src/trading/trading_bot.cpp:171-175 | a text that does not decode might as well not have been sent |
| `Sessions.SessionIsSafe` | src/trading/trading_bot.cpp:151-228 | that state is safe if the session started safe and the environment played fair |
| `Sessions.RunSafeSession` | src/trading/trading_bot.cpp:151-228 | both together on the real objects |
| `OrderPath.CountReadsBack` | src/trading/strategy.cpp:51-51 | the count written out parses to the same whole number for every count that fits |
| `OrderPath.PriceReadsBack` | include/market_state.hpp:30-30 | the price written out in dollars parses to the same price for every price that fits |
| `OrderPath.CountIsWritten` | src/trading/strategy.cpp:51-51 | a count is its digits without leading zeros and .00 |
| `OrderPath.PriceIsWritten` | include/market_state.hpp:30-30 | a price is whole dollars, a point and four decimals |
| `OrderPath.RequestText` | src/protocol/kalshi_messages.cpp:298-310 | the request text byte for byte, with every key and word written out |
| `OrderPath.RequestReadsBack` | src/protocol/kalshi_messages.cpp:23-43 | parsed again, side, time in force and self-trade prevention are exactly the words the exchange expects for each value |
| `OrderPath.OrderReadsBack` | src/protocol/kalshi_messages.cpp:298-310 | the order text is valid JSON and parses to its eight members |
| `OrderPath.OrderRoundTrip` | src/trading/strategy.cpp:48-57 | an order built from a signal, written and parsed again has the same ticker and client id, says bid for a buy and ask for a sale, is immediate-or-cancel, and has the same exact price and count |
| `OrderPathExact.RecoversExactlyIfPlain` | src/protocol/kalshi_messages.cpp:298-310 | ticker and client id are recovered from the order text if and only if neither needs escaping |
| `OrderPathExact.NumbersSurvive` | src/protocol/kalshi_messages.cpp:298-310 | with a plain ticker and any client id, an order text that parses at all has the order's price and count |
| `OrderPathExact.TickerReplacesPrice` | src/protocol/kalshi_messages.cpp:298-310 | a ticker that closes its own text and brings a price makes a parser that keeps the first of equal keys read that price |
| `OrderTicker.OrderIsFragmentPlusRest` | src/protocol/kalshi_messages.cpp:298-310 | for any ticker the order parses if and only if the ticker's fragment alone does, and then to the fragment's members with the other seven put in behind them |
| `OrderTicker.MemberIsKeptExactly` | src/protocol/kalshi_messages.cpp:298-310 | each other member has its value if and only if the fragment brings no other value for its key |
| `OrderTicker.NumbersAreKeptExactly` | src/protocol/kalshi_messages.cpp:298-310 | price and count come through if and only if the fragment is rejected or brings no other price and no other count |
| `OrderTicker.TextsTwin` | src/encoding/json_parser.cpp:41-154 | two texts that agree up to a quote, where one closes its object and the other goes on with printed members, are both rejected or parse to objects that differ by those members |
| `OrderTicker.MembersTwin` | src/encoding/json_parser.cpp:83-116 | the same for the member loop from any position and depth, objects and arrays nested inside it included |
| `OrderTicker.ScanTwin` | src/encoding/json_lexer.cpp:52-83 | a string that runs over the quote the texts share has no end in the one and ends at the next quote in the other |
| `OrderPathExact.BadTicker` | src/protocol/kalshi_messages.cpp:298-310 | an order whose ticker needs escaping is not recovered |
| `OrderPathExact.BadClientId` | src/protocol/kalshi_messages.cpp:298-310 | an order whose client id needs escaping is not recovered, whatever its ticker |
| `OrderPathExact.TextIsNotReadBack` | src/protocol/kalshi_messages.cpp:298-310 | an unescaped text that needs escaping is not the value its key gets, where the object ends or a key starting with s follows, as in the order format |
| `OrderPathExact.DecodingShrinks` | src/encoding/json_parser.cpp:158-200 | decoding never lengthens a string and shortens it if it holds an escape |

## Left out

- MarketBook.MarketState.ApplyDelta: levels are unbounded integers, because the behaviour of the source is undefined once the unguarded sum leaves 64 bits.
- MarketBook.MarketState.AddToLevel: unbounded for the same reason.
- TradingBots.TradingBot.OnFill: positions and unconfirmed amounts are unbounded integers, because the source adds 64-bit values without a guard.
- TradingBots.TradingBot.Submit: the order tracker, latency samples, the printed lines and the making of the client id are not part of the model.
- FixedPoint.ReadBody: the digit counters are unbounded, where the source counts in `int`; the scale is any natural number, where the source allows 0 to 9.
- Strategies.MeanReversionStrategy.OnBookUpdate: reals for doubles, as in the method it calls.
- Strategies.MeanReversionStrategy.OnTopOfBook: doubles are reals, and the exponential of the elapsed time is an input between 0 (excluded) and 1.
- HttpClients.HttpClient.Request: the request text with its signing headers is an input.
- WebSocketFrames.FrameBuilder: the random mask key is an input.
- WebSocketStream.WebSocket.ReceiveFrame: reads fail only at the end of the modelled input; the source discards whatever arrives together with the handshake answer before this part starts.
- KalshiDecoderObject.Decoder.ForEachMember: the callback is a value naming what to do with each member, and the collected fields are passed and returned instead of changed through references.
- String views into the receive buffer and their lifetimes: texts are values here.
- TCP and TLS sockets, the WebSocket handshake, RSA signing and environment variables.
- Clocks and connection polling: times and whether an idle connection is dead are inputs.
- Opening the HTTP connection in advance and the keep-warm request, which reuse the modelled steps.
- Answering pings, the close handshake, reconnection backoff and the status and latency reports.
- Error texts, printed output and `format_price`.
- HTTP headers other than Content-Length, Transfer-Encoding and Connection, which the source ignores too.
- The precedence of body framing in section 6.3 of RFC 9112: the model has the order the code has.
- The order-status tracker and the latency statistics, which record what happened and decide nothing.
- The fund-shard command, the benchmarks and the test framework, which are separate programs.
