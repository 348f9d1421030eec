# Verified models of a board-game server

These Dafny files model the parts of the server whose correctness rests on more than one
function, and prove what they promise for every input, every run and every cut of a stream.
`dafny verify dfyconfig.toml` checks all of it.

**Games.** `SplendorState`, `SplendorRules`, `SplendorMines`, `SplendorCoupons`,
`SplendorAllies`, `SplendorInvariant`, `SplendorBuying`, `SplendorRuns`, `SplendorBox`,
`SplendorEffects`, `SplendorStuck` and `SplendorGame` model the game of `Splendor`;
`UnoRules`, `UnoInvariant`, `UnoChallenge`, `UnoDeal`, `UnoEffects` and `UnoGame` the game of
`Uno`. The rules are functions on a game state, the classes `Splendor` and `Uno` are proved
against them, and the invariants are proved about the rules, over all runs;
`SplendorEffects` and `UnoEffects` say what each request comes to. Both games use the shuffle of `Shuffle`. `Unread` and
`UnreadCache` model the unread counters of `Authorizer` as steps that interleave.

**JSON.** `JsonString`, `JsonNumber`, `JsonValue`, `JsonToken` and `JsonText` say what
`Json::Reader` and `Json::FastWriter` compute, on the text that is left; `JsonReader` and
`JsonWriter` are the objects, proved against that. `JsonText.RoundTrip` is the main result;
`JsonReparse` shows that whatever is read can be written and read again, `JsonGrammar`
which texts of RFC 8259 are read, and that they are read as the values they denote,
`JsonAccepted` which other texts are accepted, and `JsonWritten` that what is written is a
text of RFC 8259.

**HTTP.** `Multipart` and `MultipartFraming` model the multipart parser and the bodies it is
fed, `MultipartTurns` says what each of its states does, `MultipartHeaders` how it reads the
header lines, `MultipartCuts` what it makes of a body that is cut within its opening line,
and `MultipartParser` is its object with the buffer; `Chunked` and `ChunkedStream` model
chunked transfer over a stream with short reads and writes, and `ChunkedGrammar` says which
texts are read. `Http` holds their constants.

**WebSocket.** `Mask` models the masking functions by byte and by word; `Utf8` and
`Utf8Validator` the table-driven decoder and the grammar of section 4 of RFC 3629.

`Hex`, `Sequences`, `Multisets` and `Wrappers` hold what several of them share.

## Main results

- `JsonText.RoundTrip`, with `JsonReader.Reader.Parse` and `JsonWriter.FastWriter.Write`:
  printing and parsing give a value back exactly when its text is UTF-8 and it is nested at
  most a thousand deep; `Parse` ends on every text, with an error recorded iff it fails.
  `JsonGrammar.DocumentIsRead`: a text of RFC 8259, with any white space and escapes, is
  accepted iff it is nested at most a thousand deep, every `\u` escape of a high surrogate in
  it is directly followed by another `\u` escape, and its numbers have values; then it is
  the value that the text denotes. `"\uD800"` is refused (`JsonGrammar.HalfPairIsRefused`).
  `JsonAccepted.AcceptedIff`: of all texts exactly these are accepted, and those with
  comments, loose numbers, raw control characters and the slips of the object loop.
  `JsonWritten.WrittenIsText`: every value without reals is written as a text of RFC 8259.
- `MultipartFraming.ChunksAgree`, with `MultipartParser.Parser.Parse`: the parts of a body
  do not depend on how it is cut behind its opening line, and the parser ends valid iff the
  body has parts; `MultipartCuts.ItemsFromFirstWhole`: for every cut, the parts from the
  first one on whose opening line lies whole in a chunk are read.
  `MultipartHeaders.HeaderIsUnderstood`: the serialized header of an item is understood as it
  was meant iff its name and file name hold no semicolon, equals sign or line end and its
  type is trimmed; `UploadComesBack`: then a whole upload comes back.
- `Chunked.ChunkedRoundTrip`, with `ChunkedStream.Transfer`: what is written in chunks
  arrives whole, over streams that read and write as little as they like, if and only if no
  call of the provider ends in an empty write. `ChunkedGrammar.BodyIsRead` and `ReadIsBody`:
  exactly which texts are read, whoever wrote them, with sizes in digits of either case.
- `Mask.StreamIsMasked` and `Mask.WordMaskExact`: masking by words and in pieces is masking
  byte by byte. `Utf8Validator.ValidatorIsUtf8` and `ChunksAgree`: the table is the grammar.
- `SplendorGame.EveryGame`: in every game all mines and the ninety coupons stay in play, one
  player has the turn and only that player may hold more than ten mines, counts and
  reputations agree with what was bought, and no free ally is satisfied by anybody; hence
  `SplendorAllies.OnlyBuyerIsAwarded` and `SplendorRuns.WinnerHasJustBought`.
  `SplendorRuns.GameGoesOnIff` says when the player with the turn can do anything at all,
  and `SplendorStuck.DeadGameIsReached` plays a game to where nobody ever can.
  `SplendorEffects.BuyIs`: a coupon is sold iff the gold covers what is missing, and then
  the buyer pays what is due, mine by mine, to the bank.
- `UnoDeal.EveryGame` and `UnoChallenge.ChallengeIsJudged`: all 108 cards stay in play, and
  no others come in, iff every card that is laid was held; a challenged WILD_DRAW_4 is
  judged rightly by the hand it was played from iff the colour to match was not black, and
  `UnoChallenge.WrongVerdictIsReached` leads to such a wrong verdict, with the cards in the
  order in which the constructor lists them. `UnoEffects.PlayIs`: which cards may be laid,
  and what each does to the direction, the turn and every hand.
- `Shuffle.ShuffleIsOneCycle`: the shuffle of both games is a single cycle.
- `Unread.DisplayedAfterClear`: the unread counter shown after a clear, whatever interleaves.

## How the source is modelled

- A byte string is a `string` whose characters are below 256.
- The masking words are 64 bits, little-endian, as sequences of bits; shifts and masks in
  the other parts are written as multiplication, division and remainder by powers of two.
- `std::map` is a sequence of members in the order of its keys. A `Json::Value` under
  construction is a stack of values; a value is written back to its parent when it is popped,
  where the source holds a pointer into the parent. A real number is named by its bits, and
  reading and printing reals are parameters.
- The exception of `readValue` is an outcome of its own; no contract says more about the
  object after it than that it was thrown.
- `rand()` is a parameter, so results hold for all numbers. The players of `Splendor` are in
  one fixed order, that of the iteration over their map. The cards and allies of `Splendor`
  are a parameter of the deal that `SplendorBox.TheBox` is one value of, and the cards of
  `Uno` one that `UnoDeal.FullSet` is one value of.
- `std::vector`, `std::queue` and the small arrays of the games are sequences that the
  methods replace; the buffers of the parsers, of the masks and of the number printer are
  arrays that are written in place.
- The parser of `Multipart` takes the meaning of a header line and the answers of the two
  callbacks as functions; the log of their calls is part of its state. The meaning that the
  source gives a header line is `MultipartHeaders.ParseLine`, where the decoding of an
  extended file name is a parameter, and of several parameters with one name the first
  counts.
- The stream of `ChunkedStream` reads and writes as little as it likes and may fail at any
  time.
- A region under a mutex is one step of `Unread`, and so is each update of the database by
  the background writer, which holds only the mutex of the cache. Here the model allows more
  runs than the code: the database step of a clear may come between two updates of one
  round, where the source would begin a transaction within another on its one connection and
  throw. What is proved holds for these runs as well.

Where the code does something else than its documentation or a first reading suggests, the
code is followed: a member whose name is empty lets a comma precede the closing brace of an
object; SKIP counts as a number card; `say_uno` for an unknown player judges the player with
the turn; `play` does not look whether the card is held, and black may be chosen as a
colour; a first multipart chunk that ends within the opening line is forgotten, and the
body that is written for an empty list of items is never found valid; a name with a
semicolon or an equals sign is written into a multipart header as it is, and not read back;
behind a comment, an object takes any token for the comma between two members; a call of
the content provider that ends in a write of no data ends the chunked loop.

## Model

| member | source | states |
|---|---|---|
| Utf8.EncodeIsHead | src/jsoncpp.cpp:125-151 | The encoding of a scalar value is one well-formed sequence that decodes to it, whatever follows |
| Utf8.HeadIsEncode | src/jsoncpp.cpp:125-151 | A well-formed sequence is the encoding of its own code point |
| Utf8.DecodeEncode | src/jsoncpp.cpp:125-151 | Encoding the decoded code points of a well-formed string gives the string back |
| Utf8.EncodeDecode | src/jsoncpp.cpp:125-151 | Encoding any scalar values gives a well-formed string that decodes to them |
| Utf8Validator.Table | include/websocketpp/utf8_validator.hpp:45-60 | Every entry is a class below 12 or a state below 9, so no chain of lookups leaves the table |
| Utf8Validator.AcceptsIffWellFormed | include/websocketpp/utf8_validator.hpp:69-78 | From any of the nine states the machine ends accepting iff the rest is what the RFC 3629 grammar allows after that state |
| Utf8Validator.RejectIsFinal | include/websocketpp/utf8_validator.hpp:69-78 | No input leads out of the reject state |
| Utf8Validator.RunConcat | include/websocketpp/utf8_validator.hpp:105-121 | Feeding two pieces is feeding their concatenation, for the state and for the code point |
| Utf8Validator.EmitsDecoded | include/websocketpp/utf8_validator.hpp:69-78 | The code points held at the accepting states are exactly the encoded ones |
| Utf8Validator.ValidatorIsUtf8 | include/websocketpp/utf8_validator.hpp:69-78 | A byte string is accepted iff it is UTF-8; the code points at the accepting states are scalar values and re-encode to the input |
| Utf8Validator.ChunksAgree | include/websocketpp/utf8_validator.hpp:105-126 | However a message is cut, it is accepted iff the whole is UTF-8 |
| Utf8Validator.Validator.Consume | include/websocketpp/utf8_validator.hpp:91-97 | One byte moves the state and the 32-bit code point as the table says; false exactly on reject |
| Utf8Validator.Validator.Decode | include/websocketpp/utf8_validator.hpp:105-121 | A chunk leaves the state of the whole run, although it stops at the first bad byte, and the code point of the bytes read up to there; false exactly when that happens |
| Utf8Validator.Validator.Reset | include/websocketpp/utf8_validator.hpp:129-132 | A reset validator is a new one |
| Utf8Validator.Validate | include/websocketpp/utf8_validator.hpp:143-149 | True iff the whole string is well-formed UTF-8 |
| Mask.CircshiftRotates | include/websocketpp/frame.hpp:612-623 | The shifted key is the prepared key with its bytes rotated |
| Mask.PreparedCarries | include/websocketpp/frame.hpp:595-604 | The prepared key is the four key bytes, twice |
| Mask.CircIsMasked | include/websocketpp/frame.hpp:768-841 | One call of either streaming form agrees with byte-wise masking at its position in the payload, and the key it returns fits the next position |
| Mask.StreamIsMasked | include/websocketpp/frame.hpp:768-841 | For every cut of a payload and every mix of the two streaming forms the output is byte-wise masking of the whole |
| Mask.MaskTwice | include/websocketpp/frame.hpp:645-655 | Masking twice at the same position gives the data back |
| Mask.MaskedBit | include/websocketpp/frame.hpp:645-655 | Bit `i` of octet `j` is flipped iff that bit is set in the key octet of its position modulo 4 |
| Mask.ZipAt | include/websocketpp/frame.hpp:645-655 | Byte `j` is combined with the key byte of its position, modulo the key length |
| Mask.ByteMask | include/websocketpp/frame.hpp:645-655 | Writes the byte-wise masking of the input, also in place, and nothing else of the output |
| Mask.MaskWords | include/websocketpp/frame.hpp:706-712 | The word loop writes byte-wise masking with the eight bytes of the word, also in place |
| Mask.WordMaskExact | include/websocketpp/frame.hpp:702-717 | Masking by words with a byte tail writes exactly what byte-wise masking writes |
| Mask.WordMaskCirc | include/websocketpp/frame.hpp:768-789 | Writes what the streaming model by words says and returns its key |
| Mask.ByteMaskCirc | include/websocketpp/frame.hpp:830-841 | Writes what the streaming model by bytes says and returns its key |
| JsonString.ValueToQuotedString | src/jsoncpp.cpp:4349-4424 | The escaping loop writes the literal of the string; the short cut for plain strings is one of its cases |
| JsonString.NothingToEscape | src/jsoncpp.cpp:4354-4355 | On strings without special characters escaping is the identity, so the short cut changes nothing |
| JsonString.EscapeOne | src/jsoncpp.cpp:4364-4421 | One turn of the loop appends the escape of one code point and consumes its bytes |
| JsonString.HexRoundTrip | src/jsoncpp.cpp:4330-4339 | Four hexadecimal digits are read back as the number they were written for, whatever follows |
| JsonString.SurrogatesDecode | src/jsoncpp.cpp:4412-4417 | The two escapes of a surrogate pair decode to the code point whose twenty bits they carry |
| JsonString.CodePointUnescapes | src/jsoncpp.cpp:4404-4417 | The escape of a code point is decoded to its UTF-8 encoding (twenty bits of it above U+FFFF) |
| JsonString.UnescapeEscape | src/jsoncpp.cpp:866-917 | Decoding an escaped byte string gives the string repaired to UTF-8, for every byte string |
| JsonString.RepairedOfWellFormed | src/jsoncpp.cpp:4262-4311 | The repair leaves well-formed UTF-8 alone |
| JsonString.RepairedIsWellFormed | src/jsoncpp.cpp:4262-4311 | The repaired string is well-formed UTF-8 for every byte string |
| JsonString.QuoteIsScanned | src/jsoncpp.cpp:669-679 | The literal is printable ASCII, and the scan for its end stops exactly at its closing quote, whatever follows |
| JsonString.QuoteRoundTrip | src/jsoncpp.cpp:866-917 | Decoding the literal of a byte string gives that string iff it was UTF-8 |
| JsonWritten.RepairIs | src/jsoncpp.cpp:4262-4311 | What one turn reads of any bytes: the replacement character for a cut sequence, a byte that starts none, a number that needs fewer bytes, or a surrogate; otherwise the number that the low bits spell |
| JsonWritten.EscapeIsWritten | src/jsoncpp.cpp:4364-4421 | Every byte string is escaped code point by code point: the seven short escapes with their letters, four lower-case digits for other control characters and below U+10000, pairs above, and everything else raw |
| JsonWritten.QuoteIsWritten | src/jsoncpp.cpp:4349-4424 | The literal that is written for any byte string is a string of section 7 of RFC 8259 |
| JsonWritten.WrittenIsText | src/jsoncpp.cpp:4455-4506 | Every value without reals is written as a text of the RFC 8259 grammar without white space, whatever follows |
| JsonNumber.FoldIsExact | src/jsoncpp.cpp:801-819 | The overflow test of the digit loop refuses exactly the numbers above the maximum, and the sum is the number spelled |
| JsonNumber.DecodeIsExact | src/jsoncpp.cpp:785-826 | A token is an integer iff it is digits whose value fits 64 bits with its sign; then it is that value |
| JsonNumber.DecimalsAre | src/jsoncpp.cpp:167-173 | The ten digits and their values are those of `0123456789` |
| JsonNumber.IntTextDecodes | src/jsoncpp.cpp:785-826 | What is printed for a 64-bit integer is read back as the same number |
| JsonNumber.DecodeNumber | src/jsoncpp.cpp:785-826 | The loop computes the model and its sum never leaves the 64-bit range |
| JsonNumber.UintToString | src/jsoncpp.cpp:167-173 | The digits and a terminator are written downwards within 21 free characters, and nothing else is touched |
| JsonNumber.ValueToString | src/jsoncpp.cpp:4168-4190 | Prints the decimal digits with a sign, also for the smallest integer |
| JsonValue.NameLessTotal | src/jsoncpp.cpp:2721-2736 | The order of names is total and antisymmetric |
| JsonValue.NameLessTransitive | src/jsoncpp.cpp:2721-2736 | The order of names is transitive |
| JsonValue.NameLessIff | src/jsoncpp.cpp:2721-2736 | A name is less iff it is a proper beginning of the other or has the smaller byte where they first differ |
| JsonValue.PutSorted | src/jsoncpp.cpp:3483-3499 | Setting a member keeps the names strictly increasing |
| JsonValue.PutLast | src/jsoncpp.cpp:3483-3499 | A name beyond all others is added at the end |
| JsonValue.PutMembers | src/jsoncpp.cpp:3483-3499 | Setting a member brings in that member and no other |
| JsonValue.PutLookup | src/jsoncpp.cpp:3483-3499 | Setting a member changes what is found under its own name and under no other |
| JsonToken.SpacesBeforeToken | src/jsoncpp.cpp:476-478 | Skipping spaces first does not change the token read |
| JsonToken.IntegerToken | src/jsoncpp.cpp:647-667 | A printed integer is one number token, whatever follows that is no part of a number |
| JsonToken.QuotedToken | src/jsoncpp.cpp:669-679 | A written literal is one string token, whatever follows |
| JsonToken.PunctuationToken | src/jsoncpp.cpp:476-545 | Each punctuation character is a token of its own |
| JsonToken.WordToken | src/jsoncpp.cpp:521-532 | `null`, `true` and `false` are tokens of their own |
| JsonText.ReadValue | src/jsoncpp.cpp:389-464 | Reading consumes at least one character of what it accepts, so the recursion ends on every text |
| JsonText.ReadItems | src/jsoncpp.cpp:737-773 | The array loop consumes characters in every turn |
| JsonText.ReadMembers | src/jsoncpp.cpp:681-735 | The object loop never reads beyond what is left |
| JsonText.ReadWritten | src/jsoncpp.cpp:4463-4506 | Reading a written value, whatever follows that ends a number, gives the value up to number tags and repaired strings; the exception comes exactly when it is nested too deeply for the stack |
| JsonText.RereadIsSame | src/jsoncpp.cpp:389-464 | The value that comes back is the same, numbers compared by value, iff all its strings and names are UTF-8 |
| JsonText.MembersReread | src/jsoncpp.cpp:681-735 | Members with UTF-8 names come back one by one at their own places |
| JsonText.RoundTrip | src/jsoncpp.cpp:350-387 | Parsing what was written gives the same value exactly when its text is UTF-8 and it is nested at most 1000 deep; otherwise a repaired value or the exception |
| JsonGrammar.LiteralIsToken | src/jsoncpp.cpp:669-679 | A literal of the grammar, with any escapes, is one string token, whatever follows; its text decodes, to the bytes that its characters stand for, iff its escapes are paired |
| JsonGrammar.ShortIs | src/jsoncpp.cpp:874-900 | The eight letters behind a backslash, and only these, stand for the code points that section 7 of RFC 8259 gives them, written out as numbers |
| JsonGrammar.Hex4Is | src/jsoncpp.cpp:944-968 | Four digits of either case are read as the number that they spell |
| JsonGrammar.CharDecodes | src/jsoncpp.cpp:866-917 | Every way of writing a character decodes to the bytes of that character, whatever follows, unless it is the escape of a high surrogate |
| JsonGrammar.CharsDecode | src/jsoncpp.cpp:866-942 | Any characters and escapes decode iff every `\u` escape of a high surrogate is directly followed by another `\u` escape, which is consumed with it; then to the bytes of the characters and of the pairs |
| JsonGrammar.ProperPair | src/jsoncpp.cpp:919-942 | For a high and a low surrogate the pair is the code point that section 7 of RFC 8259 writes as these two escapes |
| JsonGrammar.NumberIsToken | src/jsoncpp.cpp:647-667 | A number of the grammar, with fraction and exponent, is one token, whatever follows that is no part of a number |
| JsonGrammar.NumberDecodes | src/jsoncpp.cpp:785-853 | A whole number of 64 bits is read exactly; every other number is what the reading of reals makes of it |
| JsonGrammar.TextAppends | src/jsoncpp.cpp:389-464 | What follows a text is no part of it |
| JsonGrammar.LastEntryCounts | src/jsoncpp.cpp:681-735 | The object that a text denotes is sorted, and under each name it holds the value of the last entry of that name |
| JsonGrammar.ReadAsMeant | src/jsoncpp.cpp:389-464 | A text of the RFC 8259 grammar comes to its value, is refused, or throws, whichever the first obstacle in the order of reading says, whatever follows that does not belong to a number |
| JsonGrammar.MeaningIs | src/jsoncpp.cpp:389-464 | There is no such obstacle iff escapes are paired, numbers have values and the nesting fits the stack; the value is the one denoted |
| JsonGrammar.ReadDoc | src/jsoncpp.cpp:389-464 | A text of the grammar, with any white space and escapes, whatever follows that does not belong to a number, is read, as the value it denotes, iff its escapes are paired, its numbers have values, and it is nested within the stack; it is refused only for the first two, and the exception comes only for the last |
| JsonGrammar.DocumentIsRead | src/jsoncpp.cpp:350-387 | A document of the grammar, with white space around it, is accepted, with the value it denotes, iff it is nested at most 1000 deep, its escapes are paired and its numbers have values |
| JsonGrammar.HalfPairIsRefused | src/jsoncpp.cpp:919-942 | `"\uD800"` is a text of the grammar and is refused |
| JsonAccepted.AcceptedIff | src/jsoncpp.cpp:350-387 | For every text: it is accepted with a value and a rest iff it is spaces and comments, a tree of values with that value, nested at most 1000 deep, and that rest; besides the grammar, comments, numbers with leading zeros or missing digits that have a value, raw characters in strings, a token behind a comment in the place of a comma, and a brace behind the comma of an empty name are allowed |
| JsonAccepted.TreeIsRead | src/jsoncpp.cpp:389-464 | Each such text is read as its value within the stack |
| JsonAccepted.TreeOf | src/jsoncpp.cpp:389-464 | Whatever is read is such a text |
| JsonAccepted.CharsOf | src/jsoncpp.cpp:866-942 | A body that decodes is a sequence of characters and escapes with its surrogates paired |
| JsonAccepted.NumberOf | src/jsoncpp.cpp:647-667 | A number token is a sign or digit, digits, and optionally a fraction and an exponent, each with any number of digits |
| JsonAccepted.GapBefore | src/jsoncpp.cpp:466-474 | What is skipped before a token is spaces and whole comments |
| JsonReparse.ReadValueGood | src/jsoncpp.cpp:389-464 | On any bytes, a value that is read can be held: integers in range, objects sorted without duplicates, depth within the stack limit |
| JsonReparse.AcceptedIsReparsed | src/jsoncpp.cpp:350-387 | Whatever the reader accepts is written and accepted again; it is the same value iff the first text decoded to UTF-8 |
| JsonReparse.SameText | src/jsoncpp.cpp:4463-4506 | Values that differ in number tags only are written alike |
| JsonReader.Reader.GetNextChar | src/jsoncpp.cpp:1000-1004 | Passes one character, or stays at the end and gives NUL |
| JsonReader.Reader.SkipSpaces | src/jsoncpp.cpp:547-555 | Stops at the first character that is no space |
| JsonReader.Reader.Match | src/jsoncpp.cpp:557-566 | Consumes the pattern iff all of it is there |
| JsonReader.Reader.ReadCStyleComment | src/jsoncpp.cpp:622-629 | Ends where the model ends the comment, also without its end |
| JsonReader.Reader.ReadCppStyleComment | src/jsoncpp.cpp:631-645 | Ends behind any of the three line ends |
| JsonReader.Reader.ReadComment | src/jsoncpp.cpp:568-589 | Leaves what follows a comment of either kind; false for any other character after the slash and for a C comment without its end |
| JsonReader.Reader.ReadNumber | src/jsoncpp.cpp:647-667 | The loop with its two positions leaves exactly what follows the number |
| JsonReader.Reader.ReadString | src/jsoncpp.cpp:669-679 | Stops behind the closing quote that is not escaped |
| JsonReader.Reader.ReadToken | src/jsoncpp.cpp:476-545 | Reads the token of the model with its positions; false exactly on an error token |
| JsonReader.Reader.SkipCommentTokens | src/jsoncpp.cpp:466-474 | Reads the first token that is no comment |
| JsonReader.Reader.AddError | src/jsoncpp.cpp:970-977 | Records one error and returns false |
| JsonReader.Reader.RecoverFromError | src/jsoncpp.cpp:979-990 | Skips to behind the first token of the wanted kind, or to the end of the stream, and keeps the errors as they were |
| JsonReader.Reader.AddErrorAndRecover | src/jsoncpp.cpp:992-996 | Records one error, returns false, and skips to behind the wanted token or to the end of the stream |
| JsonReader.Reader.DecodeUnicodeEscapeSequence | src/jsoncpp.cpp:944-968 | Four digits give their value; anything else adds an error |
| JsonReader.Reader.DecodeUnicodeCodePoint | src/jsoncpp.cpp:919-942 | Decodes an escape with its surrogate pair as the model says; failure adds an error |
| JsonReader.Reader.DecodeString | src/jsoncpp.cpp:866-917 | Decodes the token as the model says; failure adds an error |
| JsonReader.Reader.DecodeNumber | src/jsoncpp.cpp:785-853 | Decodes the token as the model says; a number that is not one adds an error |
| JsonReader.Reader.ReadValue | src/jsoncpp.cpp:389-464 | On every text: true with the value, position and errors of the model, false with more errors and the nodes restored, or the exception, exactly when the model says so |
| JsonReader.Reader.ReadArray | src/jsoncpp.cpp:737-773 | The same for an array after its bracket |
| JsonReader.Reader.ReadItem | src/jsoncpp.cpp:749-771 | One turn of the array loop, with the node pushed and popped |
| JsonReader.Reader.AfterItem | src/jsoncpp.cpp:760-771 | After an item: the end of the array, a comma, or an error, each for exactly its tokens |
| JsonReader.Reader.ReadObject | src/jsoncpp.cpp:681-735 | The same for an object after its brace |
| JsonReader.Reader.ReadNamedMember | src/jsoncpp.cpp:687-705 | One turn of the object loop up to the name |
| JsonReader.Reader.ReadColon | src/jsoncpp.cpp:707-711 | The colon after a name |
| JsonReader.Reader.ReadMember | src/jsoncpp.cpp:712-717 | The value of a member, written back under its name |
| JsonReader.Reader.AfterMember | src/jsoncpp.cpp:719-731 | What may follow a member, with comments |
| JsonReader.Reader.Parse | src/jsoncpp.cpp:350-387 | Returns true exactly when no error is recorded, with the value of the model; one node is left, and the exception comes exactly for texts nested too deeply |
| JsonWriter.LookupAt | src/jsoncpp.cpp:3483-3499 | A member of a sorted object is found under its own name |
| JsonWriter.FastWriter.Write | src/jsoncpp.cpp:4455-4461 | The document is the text of the value and a line feed |
| JsonWriter.FastWriter.WriteValue | src/jsoncpp.cpp:4463-4506 | Appends exactly the text of the value |
| JsonWriter.FastWriter.WriteArray | src/jsoncpp.cpp:4488-4496 | Appends the items with commas between brackets |
| JsonWriter.FastWriter.WriteMember | src/jsoncpp.cpp:4500-4504 | Appends a name and the value looked up under it |
| Multipart.Find | include/httplib.h:4477-4498 | The index of the first occurrence of the string in the buffer, or the size of the buffer |
| Multipart.Turn | include/httplib.h:4305-4427 | Every turn that goes on consumes input or moves on from state 1, so the loop ends |
| MultipartTurns.OpeningIs | include/httplib.h:4307-4313 | The first opening line is dropped with all that stands before it; without one everything is dropped |
| MultipartTurns.EntryIs | include/httplib.h:4314-4319 | A part begins without a name, a file name and a type |
| MultipartTurns.LongHeaderIs | include/httplib.h:4320-4322 | A header is refused unread iff more than 8192 characters are buffered and no line end starts at one of the positions up to 8192 |
| MultipartTurns.LinesAreTaken | include/httplib.h:4323-4383 | Header lines are taken one by one, as far as they are understood |
| MultipartTurns.HeaderEndIs | include/httplib.h:4323-4383 | The empty line reports the header, a line that is not understood refuses it, and less than a line waits |
| MultipartTurns.ContentIs | include/httplib.h:4385-4407 | The content before the first delimiter is passed on whole; without one, all but as many characters as a delimiter has |
| MultipartTurns.BehindDelimiterIs | include/httplib.h:4408-4424 | A line end begins the next part, two dashes end the body, and anything else waits |
| MultipartFraming.FoundInBuffer | include/httplib.h:4477-4498 | In any beginning of a text, a delimiter with one CR is found where the free text before it ends, once all of it is there |
| MultipartFraming.HeaderLinesKeep | include/httplib.h:4320-4384 | However much of a header is buffered, its lines are read as if it were all there |
| MultipartFraming.ContentKeeps | include/httplib.h:4385-4407 | However much of a content is buffered, what is passed on is a beginning of it and the delimiter is not lost |
| MultipartFraming.BoundaryKeeps | include/httplib.h:4408-4424 | After a delimiter the parser tells the next part from the end |
| MultipartFraming.EndKeeps | include/httplib.h:4408-4424 | After the end the last line end, in any pieces, changes nothing |
| MultipartFraming.RunKeeps | include/httplib.h:4300-4431 | A call of `parse` keeps the parser at a place of the body, and at the end once all has been fed |
| MultipartFraming.SerializedIsTail | include/httplib.h:4596-4612 | The body that is written has the delimiters where the parser expects them |
| MultipartFraming.ChunksAgree | include/httplib.h:4300-4431 | However a serialized body is cut behind its opening line, every `parse` returns true, forms and joined contents are those of the items, and the parser ends valid iff there are items; the body without items may be cut anywhere |
| MultipartHeaders.HeaderIsUnderstood | include/httplib.h:4334-4384 | The header that is written for an item is read back as its name, file name and type iff the first two hold no `;`, `=` or line end, and the type neither starts nor ends with a blank |
| MultipartHeaders.UploadComesBack | include/httplib.h:4300-4431 | However the body of such items is cut behind its opening line, exactly their names, file names, types and contents are passed on |
| MultipartHeaders.TrimmedRange | include/httplib.h:2455-2464 | The two loops find the text without its blanks, or an empty range |
| MultipartHeaders.SplitText | include/httplib.h:2483-2503 | The loop finds the trimmed segments between the delimiters, without the blank ones |
| MultipartHeaders.KeyValue | include/httplib.h:4229-4237 | The key is the first part, and the value the last one behind it |
| MultipartHeaders.ParseDispositionParams | include/httplib.h:4222-4244 | The loop finds the parameters in their order, without repeated segments, and without their quotes |
| MultipartFraming.OpeningMustBeWhole | include/httplib.h:4307-4313 | A first chunk that ends within the opening line is forgotten: the parser is as before it, and goes on with the other chunks |
| MultipartFraming.StaysIdle | include/httplib.h:4307-4313 | Without an opening line that something follows nothing is passed on, nothing is refused, and the parser never becomes valid |
| MultipartCuts.OnlyKeptCount | include/httplib.h:4307-4313 | For any chunks: the parser does what it does with those from the first one on that holds an opening line whole |
| MultipartCuts.KeptIsSuffix | include/httplib.h:4307-4313 | Their text is an end of the whole text that starts with an opening line, and all of it iff the first chunk that is not empty starts with the opening line |
| MultipartCuts.ItemsFromFirstWhole | include/httplib.h:4300-4431 | For every cut of a body whose opening lines stand before its items only: no chunk is refused, the items from the first one on whose opening line lies whole in a chunk are passed on, the parser ends valid iff there is one, and all items are passed on iff the first chunk that is not empty holds the first opening line |
| MultipartFraming.Serialize | include/httplib.h:4596-4612 | The loop writes the items one after the other and the final delimiter |
| MultipartFraming.SerializeBegin | include/httplib.h:4569-4584 | Writes the delimiter line and the header of an item |
| MultipartParser.Parser.Append | include/httplib.h:4500-4516 | Moves what is left to the front, grows the buffer if needed, and adds the data behind it |
| MultipartParser.Parser.BufFind | include/httplib.h:4477-4498 | The nested loops find the first occurrence |
| MultipartParser.Parser.StartWith | include/httplib.h:4458-4464 | True iff the string stands at the position |
| MultipartParser.Parser.ReadInitialBoundary | include/httplib.h:4307-4313 | State 0 does what the model says |
| MultipartParser.Parser.ReadHeaders | include/httplib.h:4320-4384 | State 2 does what the model says |
| MultipartParser.Parser.ReadBody | include/httplib.h:4385-4407 | State 3 does what the model says |
| MultipartParser.Parser.ReadBoundary | include/httplib.h:4408-4424 | State 4 does what the model says |
| MultipartParser.Parser.Parse | include/httplib.h:4300-4431 | `parse` on the real buffer is the model on its contents, for every chunk |
| Hex.DigitsAre | src/jsoncpp.cpp:951-962 | The digits and their values are those of `0123456789abcdef` and of `0123456789ABCDEF`, and no other character is a digit |
| Chunked.FromIToHex | include/httplib.h:2224-2232 | The loop writes the hexadecimal digits |
| Chunked.HexRoundTrip | include/httplib.h:2224-2232 | The digits are read back as the number, whatever stops them |
| Chunked.SizeLine | include/httplib.h:3808-3813 | `strtoul` reads a written size line as the size |
| Chunked.ChunkedRoundTrip | include/httplib.h:3793-3846 | Pieces written as chunks are read back joined, and exactly what was written is consumed |
| ChunkedGrammar.SizeIsRead | include/httplib.h:3811 | Blanks, a sign, `0x`, digits of either case and a tail are read as the number that the digits spell, clamped to 64 bits, and negated modulo 2^64 behind a minus |
| ChunkedGrammar.ReadIsSize | include/httplib.h:3811 | Nothing else is read as a number |
| ChunkedGrammar.SizeLineIsRead | include/httplib.h:3811 | A line of section 4.1 of RFC 7230, with digits of either case and any extension, is read as its size |
| ChunkedGrammar.BodyIsRead | include/httplib.h:3795-3848 | Lines with sizes below 2^64 - 1, each with so many characters and a line end behind it, a line with size 0, and trailer lines of at most 8192 characters up to an empty one are read as their data, whatever follows |
| ChunkedGrammar.ReadIsBody | include/httplib.h:3795-3848 | Only such texts are read; what is left is what follows them |
| ChunkedGrammar.RefusedPassesOn | include/httplib.h:3795-3848 | Of any other text the data of its whole chunks is passed on, and of a broken one as much as there is |
| ChunkedGrammar.SizeIsWritten | include/httplib.h:2224-2232 | A size is written as its numeral in base 16, in lower case and without leading zeros |
| ChunkedGrammar.WrittenIsBody | include/httplib.h:4047-4071 | What is written for non-empty pieces is such a body: these pieces behind lines that hold their numeral only, the line `0`, and no trailer |
| ChunkedStream.LineReader.Append | include/httplib.h:2557-2568 | A character is added to the line, in the fixed buffer or in the growing one |
| ChunkedStream.LineReader.GetLine | include/httplib.h:2528-2555 | The two buffers together hold exactly the line up to its line feed or the end of the stream |
| ChunkedStream.ReadContentWithLength | include/httplib.h:3741-3761 | However short the reads are, exactly the length is passed on, or all there is and false; when the stream fails or the receiver or the progress callback refuses, false with a beginning of it |
| ChunkedStream.ReadContentChunked | include/httplib.h:3793-3846 | Unless the stream fails or the receiver refuses, result, content and rest are those of the model on the whole text; in any case no more than the content is passed on |
| ChunkedStream.ReadOneChunk | include/httplib.h:3807-3827 | One turn of the loop |
| ChunkedStream.ReadTheTrailer | include/httplib.h:3831-3843 | The trailer is consumed up to its empty line |
| ChunkedStream.WriteData | include/httplib.h:3945-3953 | True only if all data has been put on the stream, however short the writes are; in any case a beginning of it has |
| ChunkedStream.Sink.Write | include/httplib.h:4047-4071 | A successful write puts the chunk of its data on the stream, nothing for no data; a failed one a beginning of it; the offset grows by the data, and a sink that has failed does nothing |
| ChunkedStream.Sink.Finish | include/httplib.h:4075-4118 | A successful end puts the last chunk and an empty trailer on the stream |
| ChunkedStream.WriteContentChunked | include/httplib.h:4036-4139 | On success the stream holds what the operations emit; the provider is asked again exactly as long as the last operation announced more, and without a shutdown the loop ends at the first call after which it did not |
| ChunkedStream.DoneWritesEmit | include/httplib.h:4036-4139 | Writes and `done` emit exactly the encoding of the pieces that are not empty |
| ChunkedStream.LoopEndsWhenDone | include/httplib.h:4047-4138 | However the operations are spread over calls of the provider, the loop makes all of them up to `done` iff no call ends in an empty write; otherwise it ends before `done` and never emits the whole body |
| ChunkedStream.Transfer | include/httplib.h:4036-4139 | Once sent, the stream holds the whole body iff no call of the provider ended in an empty write; then, unless reading fails or is refused, what is received is the concatenation of what was written, and the text behind it is left; in any case a beginning of it is received |
| Shuffle.ShuffleInPlace | src/Splendor.hpp:311-316 | The swap loop rearranges the array as the model says, for any random numbers |
| Shuffle.ShuffleKeeps | src/Splendor.hpp:311-316 | The shuffle is a permutation |
| Shuffle.ShuffleIsOneCycle | src/Uno.hpp:100-101 | Whatever is drawn, the shuffle is a single cycle through all slots |
| Shuffle.OriginIsUniversal | src/Uno.hpp:100-101 | Every deck of a size is rearranged in the same way by the same draws |
| Shuffle.NoSlotKeepsItsCard | src/Uno.hpp:100-101 | In a deck of two or more different cards no slot keeps its card |
| Shuffle.ShuffleLeaves | src/Splendor.hpp:207-210 | Slots above the top are left alone, so an ally taken out is not swapped again |
| SplendorMines.CheckAffordability | src/Splendor.hpp:642-652 | True iff the shortfall over the five mines is at most the gold |
| SplendorMines.AffordableIsPayable | src/Splendor.hpp:527-539 | Who can afford a coupon keeps every count non-negative and pays exactly the price after the bonus |
| SplendorMines.UnaffordableIsNotPayable | src/Splendor.hpp:527-539 | Who cannot afford it would be left with negative gold |
| SplendorMines.PriceIsPaid | src/Splendor.hpp:527-539 | Mines and gold together make up the price |
| SplendorMines.PayFor | src/Splendor.hpp:604-616 | The payment loop takes from each mine and from the gold, and gives to the bank, what the model says |
| SplendorCoupons.FillKeepsCoupons | src/Splendor.hpp:567-581 | Filling a slot loses no coupon |
| SplendorCoupons.FillKeepsShape | src/Splendor.hpp:567-581 | Filling keeps four slots for each level, and a slot empty only when its deck is |
| SplendorCoupons.BoughtIsCounted | src/Splendor.hpp:541-543 | The counts stay the tally of bought coupons by type |
| SplendorCoupons.NumberNamesCoupon | src/Splendor.hpp:212-309 | With the coupons of the box in play a number names one coupon, in one place |
| SplendorAllies.OnlyBuyerIsAwarded | src/Splendor.hpp:681-701 | Although the loop does not stop, every ally goes to the buyer or to nobody |
| SplendorAllies.NoneLeftSatisfied | src/Splendor.hpp:681-701 | After the look-round no free ally is satisfied by anybody |
| SplendorAllies.AwardsAdd | src/Splendor.hpp:694-696 | What a player owns grows by exactly what was credited |
| SplendorInvariant.TradeConserves | src/Splendor.hpp:375-458 | A trade of one player with bank, slots and deck keeps all mines and coupons |
| SplendorInvariant.TakeThreeKeeps | src/Splendor.hpp:375-423 | Taking three mines keeps the invariant and moves the turn properly |
| SplendorInvariant.TakeTwoKeeps | src/Splendor.hpp:425-458 | Taking two mines keeps the invariant and moves the turn properly |
| SplendorInvariant.ReserveKeeps | src/Splendor.hpp:460-507 | Reserving a coupon, not an empty slot, keeps the invariant and moves the turn properly |
| SplendorInvariant.ReturnKeeps | src/Splendor.hpp:655-679 | Giving back keeps the invariant and moves the turn properly |
| SplendorInvariant.FoundHasTurn | src/Splendor.hpp:375-382 | Only the player with the turn gets past the status test |
| SplendorBuying.PurchaseMoves | src/Splendor.hpp:509-564 | A purchase keeps the invariant, passes the turn on, and leaves the reputation of all others as it was |
| SplendorBuying.AccountsAfterBuying | src/Splendor.hpp:541-561 | After a purchase reputations are coupons plus owned allies, and no free ally is satisfied |
| SplendorRuns.BuyKeeps | src/Splendor.hpp:509-564 | Buying from a slot that is not empty keeps the invariant |
| SplendorRuns.BuyReservedKeeps | src/Splendor.hpp:586-639 | Buying a reserved coupon keeps the invariant |
| SplendorRuns.StepKeeps | src/Splendor.hpp:375-679 | Every request that does not take an empty slot is refused without effect or keeps the invariant |
| SplendorRuns.RunKeeps | src/Splendor.hpp:375-679 | Every run of such requests, accepted or refused, keeps the invariant |
| SplendorRuns.CouponIsInOnePlace | src/Splendor.hpp:212-309 | In every such game a coupon number is in one place only |
| SplendorRuns.WinnerHasJustBought | src/Splendor.hpp:703-710 | The first winner reported is the player who has just bought, and there is one exactly when that player is above fourteen |
| SplendorRuns.CanReturn | src/Splendor.hpp:655-668 | A player who must give mines back can |
| SplendorRuns.OnlyReturnIsAccepted | src/Splendor.hpp:655-679 | While mines are owed only a return is accepted; the turn passes exactly when ten are left |
| SplendorRuns.AtMostThreeReturns | src/Splendor.hpp:655-679 | At most three returns are accepted in a row |
| SplendorRuns.ReserveNeedsNumber | src/Splendor.hpp:460-507 | An accepted reservation keeps hands of cards iff the number asked for is not 0 |
| SplendorRuns.GameGoesOnIff | src/Splendor.hpp:375-679 | There is no pass: the player with the turn has a request that is accepted iff mines are owed, the bank can be taken from, a coupon can be reserved, or one can be paid for |
| SplendorBox.CardsAreNumbered | src/Splendor.hpp:212-309 | The ninety cards are well-formed and numbered 1 to 90 |
| SplendorBox.TheBox | src/Splendor.hpp:191-309 | The cards and allies of the source make a box of that kind |
| SplendorBox.StartIsValid | src/Splendor.hpp:174-340 | Whatever is drawn, a game starts in the invariant, with the turn at the player drawn |
| SplendorStuck.IsBrought | src/Splendor.hpp:311-316 | Draws that name different slots below bring exactly the cards of these slots to the top, in that order |
| SplendorStuck.StuckWithoutRequest | src/Splendor.hpp:375-679 | Once the player with the turn has no request that is accepted, no run of requests, by anybody, changes the game |
| SplendorStuck.DeadGameIsReached | src/Splendor.hpp:174-679 | Any two players can play the box of the source to a game where nobody has won, the player with the turn has no request that is accepted, and nothing that anybody asks for changes anything |
| SplendorGame.EveryGame | src/Splendor.hpp:174-679 | Every game that is dealt and played, without taking an empty slot, stays in the invariant |
| SplendorEffects.BuyIs | src/Splendor.hpp:509-564 | A coupon on the table is sold iff the gold is at least what is missing; each coloured mine falls by the smaller of holding and due, gold by the rest, the bank gains exactly that, and the buyer has the coupon, its count, its reputation and the allies won |
| SplendorEffects.BuyReservedIs | src/Splendor.hpp:586-639 | The same for a coupon reserved before, which leaves the reserved ones |
| SplendorEffects.BuyNeedsCoupon | src/Splendor.hpp:516-520 | A number that is not on the table, or not reserved, is refused |
| SplendorEffects.PurchaseIs | src/Splendor.hpp:541-564 | After a purchase exactly the free allies whose conditions the buyer meets are owned and credited, and the next player has the turn |
| SplendorEffects.TakeThreeIs | src/Splendor.hpp:375-423 | Three mines are given iff the player has the turn, they are different colours, in any order, and the bank holds each |
| SplendorEffects.TakeTwoIs | src/Splendor.hpp:425-458 | Two of a colour are given iff the bank holds at least four of it |
| SplendorEffects.ReserveIs | src/Splendor.hpp:460-507 | A coupon is reserved iff at most two are; a gold comes with it while there is one, and the next coupon of its level fills the slot |
| SplendorEffects.ReserveNeedsCoupon | src/Splendor.hpp:460-507 | A number that is not on the table is refused |
| SplendorEffects.ReturnIs | src/Splendor.hpp:655-679 | Exactly the mine named goes back, iff mines are owed and it is held; the turn passes when ten are left |
| SplendorEffects.StrangersAreRefused | src/Splendor.hpp:375-382 | Who does not play is not served |
| SplendorEffects.StartIs | src/Splendor.hpp:174-189 | The mines of the bank for two, three and four players, and players with nothing |
| SplendorEffects.TableIs | src/Splendor.hpp:311-325 | Of each level, shuffled, the last four lie on the table and the others in the deck, level by level |
| SplendorEffects.AlliesAre | src/Splendor.hpp:191-208 | One ally more than players, from the end of the shuffled ones |
| SplendorGame.Splendor.constructor | src/Splendor.hpp:174-340 | Deals the game of the model |
| SplendorGame.Splendor.Take3Mines | src/Splendor.hpp:375-423 | Answers and changes the state as the model says |
| SplendorGame.Splendor.Take2Mines | src/Splendor.hpp:425-458 | Answers and changes the state as the model says |
| SplendorGame.Splendor.ReserveACoupon | src/Splendor.hpp:460-507 | Answers and changes the state as the model says |
| SplendorGame.Splendor.BuyACoupon | src/Splendor.hpp:509-564 | Answers and changes the state as the model says |
| SplendorGame.Splendor.BuyAReservedCoupon | src/Splendor.hpp:586-639 | Answers and changes the state as the model says |
| SplendorGame.Splendor.GiveBackMine | src/Splendor.hpp:655-679 | Answers and changes the state as the model says |
| SplendorGame.Splendor.FillCoupon | src/Splendor.hpp:567-581 | Moves the first coupon of the level from the deck to the slot, or empties it |
| SplendorGame.Splendor.AwardAlly | src/Splendor.hpp:684-699 | The loop over the players credits everybody who satisfies the ally and leaves the last as owner |
| SplendorGame.Splendor.CheckAlly | src/Splendor.hpp:681-701 | The nested loops compute the new owners and reputations in closed form |
| SplendorGame.Splendor.CheckWinner | src/Splendor.hpp:703-710 | Reports the first player above fourteen, if any |
| SplendorGame.Splendor.Process | src/SplendorRoom.hpp:31-97 | A request served on the object is a step of the model and keeps the invariant |
| UnoInvariant.GiveKeeps | src/Uno.hpp:134-141 | Dealing cards out loses none |
| UnoInvariant.PlayKeepsCards | src/Uno.hpp:169-241 | A play keeps the cards of the game if the card was held; otherwise the game has that card more |
| UnoInvariant.PlayRecords | src/Uno.hpp:169-241 | After a play the record names the card on top and its colour, unless it is black |
| UnoInvariant.StepKeeps | src/Uno.hpp:162-339 | Every call with enough cards to draw keeps the record and the range of the turn, loses no card, and adds only a card that is played without being held |
| UnoInvariant.RunKeeps | src/Uno.hpp:162-339 | In every run of such calls the cards are those of the beginning and the ones played without being held; they are those of the beginning iff every card that was laid was held |
| UnoInvariant.ColorStaysNamed | src/Uno.hpp:234-237 | While real colours are chosen, the colour to match is a real one |
| UnoChallenge.NextIsUndone | src/Uno.hpp:162-167 | Stepping against the direction undoes a step |
| UnoChallenge.WaitingFreezes | src/Uno.hpp:169-346 | While a challenge is awaited no call changes turn, direction or the case; the two answers end it |
| UnoChallenge.PlayOpensCase | src/Uno.hpp:192-231 | Laying a WILD_DRAW_4 opens a case against its player about the hand held before |
| UnoChallenge.ChallengeIsJudged | src/Uno.hpp:297-327 | In every game, whatever is called in between, the challenge is against the player of the card; that it finds guilty iff the hand had a card that is not black and matched holds iff the colour to match was not black |
| UnoChallenge.NothingMatchesBlack | src/Uno.hpp:234-238 | In every game with the cards of the set, black is the colour to match only under a black card, and then no card that is not black may be laid |
| UnoChallenge.WrongVerdictIsReached | src/Uno.hpp:297-327 | For any three to ten players there is a deal of the cards in the order of the constructor where a WILD with black chosen and a WILD_DRAW_4 after it, both held, lead to a conviction without an alternative |
| UnoDeal.FullSetIsFull | src/Uno.hpp:74-93 | The 108 cards are well-formed, and only 24 of them are no number cards |
| UnoDeal.DealtDeckHasNumber | src/Uno.hpp:109-123 | With up to ten players the deck left after dealing holds a number card |
| UnoDeal.TurnedUpStep | src/Uno.hpp:120-123 | Turning a card under the deck brings a number card nearer, so the loop ends |
| UnoDeal.TurnedUp | src/Uno.hpp:120-123 | The loop ends with a number card on top and all cards still there |
| UnoDeal.StartIsValid | src/Uno.hpp:99-128 | A game starts with all 108 cards and a coloured card on top, which is recorded |
| UnoDeal.EveryGame | src/Uno.hpp:99-339 | In every game the turn is in range, the record is right and no card is lost; the game has exactly the cards of the full set iff every card that was laid was held, and then hands hold cards of it |
| UnoEffects.PlayIs | src/Uno.hpp:169-241 | A card is accepted iff it is black or shares colour or content with the top, the player has the turn, no challenge is open, and it is the card drawn if one was; then exactly that card leaves the hand, a forgotten UNO costs two cards, REVERSE turns the direction, SKIP and DRAW_2 move the turn by two seats and all others by one, and the seat passed over by a DRAW_2 draws the next two |
| UnoEffects.DrawOneIs | src/Uno.hpp:243-263 | One card, after two for a premature UNO, from the front of the deck; once, and with the turn |
| UnoEffects.SkipIs | src/Uno.hpp:265-279 | The turn moves on by one seat, iff a card was drawn |
| UnoEffects.SayUnoIs | src/Uno.hpp:281-295 | Two cards for another player who calls, or for the one with the turn who does not hold two; otherwise the call is noted |
| UnoEffects.SuspectIs | src/Uno.hpp:297-327 | With evidence the player before draws four and the challenger keeps the turn; without, the challenger draws six and the turn moves on |
| UnoEffects.DissuspectIs | src/Uno.hpp:329-339 | The player draws four and the turn moves on |
| UnoEffects.WinnerHasJustPlayed | src/Uno.hpp:349-357 | The first winner reported is the player who has just laid the only card held |
| UnoEffects.FullSetCounts | src/Uno.hpp:74-93 | How often each card is in the set: one zero and two of each other content in each colour, four of both black cards |
| UnoEffects.StartIs | src/Uno.hpp:99-128 | Player `k` of the shuffled order holds the cards 7k to 7k + 6 of the shuffled set, the rest is turned until a number card or SKIP is on top, and that is to be matched |
| UnoGame.Uno.constructor | src/Uno.hpp:64-96 | Seats the players and deals the game of the model, from a full set of cards |
| UnoGame.Uno.DealHands | src/Uno.hpp:109-118 | Seven cards to each player from the front of the deck |
| UnoGame.Uno.GiveCards | src/Uno.hpp:134-141 | Moves the cards one by one and returns the last |
| UnoGame.Uno.TurnUpNumber | src/Uno.hpp:120-123 | The loop ends with a number card on top |
| UnoGame.Uno.GoNext | src/Uno.hpp:162-167 | The arithmetic with the remainder is the step of the model |
| UnoGame.Uno.GetLastPlayer | src/Uno.hpp:341-346 | The arithmetic with the remainder is the step back |
| UnoGame.Uno.Play | src/Uno.hpp:169-241 | Accepts, punishes and changes the state as the model says |
| UnoGame.Uno.DrawACard | src/Uno.hpp:243-263 | Accepts, punishes and changes the state as the model says |
| UnoGame.Uno.SkipAfterDrawingOne | src/Uno.hpp:265-279 | Accepts and changes the state as the model says |
| UnoGame.Uno.SayUnoAloud | src/Uno.hpp:281-295 | True only for the player with the turn and two cards; everybody else draws two |
| UnoGame.Uno.SuspectLast | src/Uno.hpp:297-327 | Answers with the verdict of the model and names the player of the card |
| UnoGame.Uno.DissuspectLast | src/Uno.hpp:329-339 | Accepts and changes the state as the model says |
| UnoGame.Uno.CheckWinner | src/Uno.hpp:349-357 | Reports the first player without cards, if any |
| UnoGame.Uno.Process | src/UnoRoom.hpp:31-141 | A call served on the object is a step of the model, keeps the record and the range of the turn, and adds only a card that is played without being held |
| Unread.DisplayedIsValue | src/Authorizer.hpp:367-398 | With one entry for each pair, the displayed sum is the database count and what is still cached |
| Unread.AddCounts | src/Authorizer.hpp:437-461 | Adding counts one for its pair and keeps at most one entry for each |
| Unread.ClearCachedClears | src/Authorizer.hpp:463-472 | The first step of a clear empties the cached count of its pair only |
| Unread.WriteRowMoves | src/Authorizer.hpp:492-502 | Writing an entry moves its count and changes no counter |
| Unread.StepKeepsBounds | src/Authorizer.hpp:437-506 | Every step keeps a counter between the adds since the last step of a clear and the adds since the last clear began |
| Unread.RunKeepsBounds | src/Authorizer.hpp:437-506 | So does every interleaving that the mutexes allow |
| Unread.DisplayedAfterClear | src/Authorizer.hpp:437-506 | After a clear, interleaved with anything else, also with other clears of the pair, the display is at least the adds since it ended and at most the adds since it began |
| Unread.DisplayedWithoutClears | src/Authorizer.hpp:437-506 | Without clears the display is exact |
| Unread.DisplayedInSequence | src/Authorizer.hpp:437-506 | When nothing is added during the clear the display is the adds since it |
| UnreadCache.Authorizer.AddOneUnread | src/Authorizer.hpp:437-461 | Counts in the entry of the pair or adds one |
| UnreadCache.Authorizer.ClearInCache | src/Authorizer.hpp:463-472 | Empties the entry of the pair |
| UnreadCache.Authorizer.UnreadOf | src/Authorizer.hpp:373-382 | Adds the cached count to that of the database |
| UnreadCache.Authorizer.ClearUnread | src/Authorizer.hpp:463-482 | Undisturbed, the counter is zero and all others are unchanged |
| UnreadCache.Authorizer.WriteCacheToDatabase | src/Authorizer.hpp:486-506 | Undisturbed, a round changes no counter and empties the cache |

## Left out

- Sockets, TLS, HTTP routing, rooms, broadcasting, logins and the SQL statements themselves: plumbing around the parts modelled here.
- Reading and printing of reals, locale handling, the comments attached to values, offsets, the styled writers, `Path` and the second reader `OurReader`: parameters, library calls, or repetitions of `Reader`.
- The settings of `Reader` and `FastWriter` other than the defaults: they only switch branches off.
- The JSON views of both games and their record of the last action: they do not influence the game.
- Compression and trailers written by the server: `nocompressor` and an empty trailer are modelled.
- A second `init` of a game of `Uno`: it leaves `wait_suspect` as it was; only the one of the constructor is modelled. The loops that list its 108 cards are the function `UnoDeal.FullSet`.
- JsonReader.Reader.AddError: an error keeps its token and message; the extra position is left out.
- JsonReader.Reader.ReadComment: the comment is not collected for the next value.
- JsonReader.Reader.ReadValue: after a rejected value the position is only said not to lie before the one at the start; nothing but further errors depends on it.
- JsonGrammar.DocumentIsRead: speaks of the texts of the grammar; of all others `JsonAccepted.AcceptedIff` says which are accepted.
- JsonWritten.WrittenIsText: leaves out values with reals, whose text is a parameter.
- MultipartHeaders.HeaderIsUnderstood: the decoder of an extended file name is any function whose results are shorter than what they are read from, as those of the source are.
- MultipartCuts.ItemsFromFirstWhole: a body with an opening line within a header or a content, where the parser can start as well, is covered by `MultipartCuts.OnlyKeptCount` only.
- ChunkedStream.ReadTheTrailer: the fields of a trailer are read but not interpreted.
- ChunkedStream.ReadContentChunked: leaves out the same fields.
- SplendorRules.Buy: the number 0 is excluded where the player has the turn and an empty slot would be found, because its type indexes outside the counts.
- SplendorGame.Splendor.BuyACoupon: excludes the same.
- SplendorRuns.RunKeeps: no empty slot is bought or reserved; `SplendorRuns.ReserveNeedsNumber` says exactly that reserving one breaks the invariant.
- SplendorRuns.StepKeeps: excludes the same.
- SplendorRuns.BuyKeeps: excludes the same.
- SplendorInvariant.ReserveKeeps: excludes the number 0, for which `SplendorRuns.ReserveNeedsNumber` shows that the invariant is lost.
- SplendorGame.EveryGame: excludes the same.
- SplendorGame.Splendor.Process: excludes the same.
- SplendorRules.TakeThree: mines are the six of the enumeration; the room casts any integer to one without a test.
- UnoInvariant.StepKeeps: needs the deck to be larger than the draw, which the source does not test; taking from an empty queue is undefined.
- UnoInvariant.RunKeeps: needs the same before each call.
- UnoDeal.EveryGame: needs the same before each call.
- UnoGame.Uno.Process: needs the same.
- UnoChallenge.ChallengeIsJudged: the cards laid before were held, so that all cards are those of the set.
- Unread.StepKeepsBounds: an update that fails is not modelled; its count would be lost.
- MultipartFraming.ChunksAgree: the epilogue is the final line end that the serializer writes; other text after the final delimiter can depend on the cut.
- ChunkedStream.Transfer: pieces are shorter than the largest unsigned long, as any piece in memory is.
