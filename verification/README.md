# A verified model of the kvdn C++ client stack

The C++ client is a Vert.x event-bus client (`VertxBus`) on top of a JSON codec (`jsoncpp`), WebSocket
framing and UTF-8 validation (`websocketpp`) and a growing byte buffer (`asio::basic_streambuf`). This
project models those layers in Dafny and proves what they promise for all inputs and all runs.
`dafny verify dfyconfig.toml` checks everything.

| files | what they hold |
|---|---|
| `Bytes`, `JsonValue`, `JsonOrder`, `JsonMap` | octets, `Value` and its order, the index map behind arrays |
| `JsonNumber`, `JsonString`, `JsonToken`, `JsonParse` | numbers, escapes, tokens and the grammar the reader accepts, as functions |
| `JsonReader`, `JsonWriter`, `JsonStyledWriter` | `Reader`, `FastWriter` and `StyledWriter` as the classes they are |
| `JsonRoundTrip`, `JsonLayout`, `JsonStyled`, `JsonSame` | what reading back gives; layouts that tokenise alike; same tokens, same value |
| `Rfc8259`, `JsonRfc`, `JsonTexts`, `JsonAccepts` | the JSON grammar octet by octet; that every text of it is read, that the writers write such texts, and what else is accepted |
| `BusModel`, `VertxBus`, `BusRuns`, `BusMessages`, `BusRaces` | the client as a state machine, as a class refining it, over whole runs, on JSON payloads, and with its lock boundaries |
| `FrameMask`, `FrameHeader`, `Utf8` | masking and headers of RFC 6455, the table-driven decoder for RFC 3629 |
| `Streambuf`, `Uri` | the byte queue, the URI parser and printer |

Conventions. An octet is an integer from 0 to 255, and a document is read with a zero octet behind its
end, as `parse(std::string)` does through `c_str()`. Integers are unbounded, so every conversion to a
narrower type in the source is written out. A `std::map` is a sequence of entries in key order. Exceptions
are results (`Thrown`, `threw`). `scan` and `show` stand for `sscanf` and `snprintf` on doubles, `wild`
for what `atoi` gives out of range; the claims hold for all of them. Whether the endpoint takes a frame or
a URL is a parameter of the call.

## Where the code falls short

Each of these is proved with an input that shows it and the exact condition under which the code is right.

- `Value::operator<` narrows a difference of sizes to `int`. Two values can each be less than the other, at
  the top or further down (`HugeArraysBreakTheOrder`, `AsymmetryFailsExactly`), and three can stand in a ring
  (`ThreeArraysInARing`, `TransitivityFailsExactly`).
- `FastWriter` narrows an array size to `int`: an array that reaches index 2^31 - 1 prints as `[]`
  (`LongArrayIsLost`, `SameExactly`).
- `resize` to a smaller size asserts a size the array does not have when the new last slot is a gap
  (`ResizeAssertFails`, `Resize`).
- `StyledWriter` prints member names up to their first NUL (`NulNameIsLost`, `SameTokensExactly`).
- `decodeString` turns a lone low surrogate escape into octets that are not UTF-8 (`LowSurrogateAlone`,
  `DecodedIsUtf8Exactly`).
- `reserve` moves the bytes before it throws and leaves the pointers (`ThrowScrambles`, `Reserve`).
- `uri::str()` drops the brackets of a host (`BracketsAreLost`, `RoundTripExactly`).
- A rejected URL leaves the client connecting for good (`RejectedUrl`, `RejectedUrlExactly`). A close callback
  in the middle of `Close` leaves it closing for good, unless a new attempt is under way by its end
  (`CallbackInClose`, `CloseRaceExactly`).
- A failed send breaks the alternation the server sees unless sends fail in pairs (`FailedSendBreaksDelivery`,
  `DeliveredAlternateExactly`); so do reordered sends unless each keeps its parity (`OutOfOrderWire`,
  `WireAlternatesExactly`).

The comment on `word_mask_circ` and `byte_mask_circ` asks for buffers padded to a multiple of the word
size. The code reads and writes `length` octets only, and the model follows the code.

## Model

| member | source | states |
|---|---|---|
| `JsonValue.EqualIsIdentity` | Client/cpp/json/jsoncpp.cpp:2931-2973 | `operator==`, tags compared, holds of two values exactly when they are the same value |
| `JsonValue.Trichotomy` | Client/cpp/json/jsoncpp.cpp:2879-2923 | of `a < b`, `a == b`, `b < a` exactly one holds, for all values whose containers hold fewer than 2^31 entries |
| `JsonValue.Transitive` | Client/cpp/json/jsoncpp.cpp:2879-2923 | `operator<` is transitive on those values, through type, size and entries, recursively |
| `JsonValue.CompareDecides` | Client/cpp/json/jsoncpp.cpp:2871-2877 | for values of every size, `compare` is 0 exactly when `operator==` holds, and changes sign when its arguments are swapped exactly when they do not clash |
| `JsonOrder.LessIsBefore` | Client/cpp/json/jsoncpp.cpp:2879-2923 | on values of every size `operator<` is this order: types as null, int, uint, real, string, bool, array, object; numbers by size; false before true; strings by prefix or first differing octet; containers by count modulo 2^32, then by the first entry that differs, key before value |
| `JsonOrder.SmallContainers` | Client/cpp/json/jsoncpp.cpp:2912-2918 | below 2^31 entries: fewer entries first, else the first entry that differs decides |
| `JsonOrder.CompareMeans` | Client/cpp/json/jsoncpp.cpp:2871-2877 | `compare` is -1, 1 or 0 as the first comes before, after or with the second in that order |
| `JsonValue.Decided` | Client/cpp/json/jsoncpp.cpp:2879-2923 | for values of every size, neither is less than the other exactly when they are the same |
| `JsonValue.AsymmetryFailsExactly` | Client/cpp/json/jsoncpp.cpp:2879-2923 | two values are each less than the other exactly when, followed down to the first entry that differs, the comparison ends at two containers of one type whose counts differ by 2^31 modulo 2^32 |
| `JsonValue.HugeArraysBreakTheOrder` | Client/cpp/json/jsoncpp.cpp:2914-2916 | 2^31 elements against none, and the same pair inside arrays of one element |
| `JsonValue.TransitivityFailsExactly` | Client/cpp/json/jsoncpp.cpp:2879-2923 | given `a < b` and `b < c`, `a < c` fails exactly when, at the first entries that differ, the two wrapped differences of counts sum to less than -2^31 (or wrap to 0 and the outer entries decide) |
| `JsonValue.ThreeArraysInARing` | Client/cpp/json/jsoncpp.cpp:2914-2916 | arrays of 0, 3 * 2^29 and 3 * 2^30 elements, each less than the next and the last less than the first |
| `JsonValue.KeyTrichotomy` | Client/cpp/json/jsoncpp.cpp:2650-2672 | map keys of one kind are totally ordered |
| `JsonMap.LookupPut` | Client/cpp/json/jsoncpp.cpp:3298-3312 | inserting at the lower bound changes the value at its own key and at no other |
| `JsonMap.LookupErase` | Client/cpp/json/jsoncpp.cpp:3499-3520 | erasing takes away its own key and no other |
| `JsonMap.ArrayValue.Slot` | Client/cpp/json/jsoncpp.cpp:3298-3312 | gives the value at the index, creating a null there if it was missing, all other slots as before |
| `JsonMap.ArrayValue.Append` | Client/cpp/json/jsoncpp.cpp:3445 | on a dense array of fewer than 2^32 elements it appends to the element sequence, and the array stays dense |
| `JsonMap.ArrayValue.RemoveIndex` | Client/cpp/json/jsoncpp.cpp:3499-3520 | a missing slot is refused; otherwise the removed value is returned, slots above move down one, gaps read as null; on a dense array this is sequence deletion |
| `JsonMap.DenseRemoval` | Client/cpp/json/jsoncpp.cpp:3499-3520 | that map of slots is dense again and its values are the old ones without the removed one, in order |
| `JsonMap.ArrayValue.Resize` | Client/cpp/json/jsoncpp.cpp:3280-3296 | growing creates the last slot only; shrinking drops the tail; the closing assertion holds exactly when the new last slot was present |
| `JsonMap.ResizeAssertFails` | Client/cpp/json/jsoncpp.cpp:3280-3296 | an array with slot 2 only, resized to 2, fails the assertion |
| `JsonNumber.DigitsDenote` | Client/cpp/json/jsoncpp.cpp:149-155 | the digits of a number are decimal digits that denote it |
| `JsonNumber.DigitsFit` | Client/cpp/json/jsoncpp.cpp:135-147 | 64-bit magnitudes have at most 20 digits, so sign, digits and terminator fit in 25 octets |
| `JsonNumber.UintToString` | Client/cpp/json/jsoncpp.cpp:149-155 | leaves digits and terminator ending at the position given, and every other octet of the buffer alone |
| `JsonNumber.IntToString` | Client/cpp/json/jsoncpp.cpp:4013-4024 | the signed decimal text, for all of -2^63 to 2^63 - 1 |
| `JsonNumber.UIntToText` | Client/cpp/json/jsoncpp.cpp:4026-4032 | the decimal text, for all of 0 to 2^64 - 1 |
| `JsonNumber.DecodeNumber` | Client/cpp/json/jsoncpp.cpp:735-773 | an integer exactly when the token is a digit string, signed or not, that denotes a number from -2^63 to 2^64 - 1; the accumulator never wraps |
| `JsonNumber.DecodeInvertsPrinting` | Client/cpp/json/jsoncpp.cpp:735-773 | decoding a printed integer gives it back, tagged unsigned above 2^31 - 1 and signed otherwise |
| `JsonString.EncodedIsChar` | Client/cpp/json/jsoncpp.cpp:104-130 | every scalar value is encoded as one UTF8-char of RFC 3629 that denotes it |
| `JsonString.EncodeThenDecode` | Client/cpp/json/jsoncpp.cpp:104-130 | the validator run on the encoding of a scalar value accepts with that scalar value |
| `JsonString.ValueToQuotedStringN` | Client/cpp/json/jsoncpp.cpp:4162-4223 | the fast path and the loop both give the quoted octet-by-octet escape |
| `JsonString.ValueToQuotedString` | Client/cpp/json/jsoncpp.cpp:4085-4145 | the same of the name up to its first NUL |
| `JsonString.DecodeUnicodeEscapeSequence` | Client/cpp/json/jsoncpp.cpp:914-940 | the value of four hexadecimal digits of either case, or the right error |
| `JsonString.DecodeUnicodeCodePoint` | Client/cpp/json/jsoncpp.cpp:885-912 | combines a high surrogate with whatever escape follows it, and fails if none follows |
| `JsonString.DecodeString` | Client/cpp/json/jsoncpp.cpp:832-883 | the loop decodes the token body as the recursive definition does, errors included |
| `JsonString.DecodeInvertsEscape` | Client/cpp/json/jsoncpp.cpp:832-883 | decoding an escaped octet string gives it back, NUL and non-UTF-8 octets included |
| `JsonString.DecodedIsUtf8Exactly` | Client/cpp/json/jsoncpp.cpp:832-940 | a decodable token body decodes to well-formed UTF-8 exactly when its octets are well-formed and it has no lone low surrogate escape |
| `JsonString.LowSurrogateAlone` | Client/cpp/json/jsoncpp.cpp:885-912 | the escape `\uDC00` alone decodes, and not to UTF-8 |
| `JsonToken.StringScanned` | Client/cpp/json/jsoncpp.cpp:619-629 | a string token the scanner accepts is closed: a body in which no escape is cut, then the quote |
| `JsonToken.LexString` | Client/cpp/json/jsoncpp.cpp:426-495 | at the quoted escape of any octet string the scanner reads exactly that string token |
| `JsonToken.LexInteger` | Client/cpp/json/jsoncpp.cpp:597-617 | at printed integer text followed by no number character the scanner reads exactly that number token |
| `JsonToken.LexWords` | Client/cpp/json/jsoncpp.cpp:426-495 | at `null`, `true` and `false` it reads their tokens |
| `JsonReader.Reader.ReadOneToken` | Client/cpp/json/jsoncpp.cpp:426-495 | advances over white space and one token exactly as the token function says |
| `JsonReader.Reader.ReadStringChars` | Client/cpp/json/jsoncpp.cpp:619-629 | stops behind the closing quote, or at the end of the text and fails |
| `JsonReader.Reader.ReadNumber` | Client/cpp/json/jsoncpp.cpp:597-617 | stops at the end of digits, fraction and exponent |
| `JsonReader.Reader.ReadComment` | Client/cpp/json/jsoncpp.cpp:518-539 | stops behind the comment; an unclosed block comment fails |
| `JsonReader.Reader.SkipCommentTokens` | Client/cpp/json/jsoncpp.cpp:416-424 | gives the first token that is no comment, and terminates |
| `JsonReader.Reader.RecoverFromError` | Client/cpp/json/jsoncpp.cpp:952-963 | stops behind the first matching or end token, terminates, and keeps no error found on the way |
| `JsonReader.Reader.ReadOneValue` | Client/cpp/json/jsoncpp.cpp:332-414 | refines the grammar: same value, position and error; throws at the depth limit only; the node stack below is untouched |
| `JsonReader.Reader.ReadObject` | Client/cpp/json/jsoncpp.cpp:631-685 | the same for the member loop, with one error and recovery to the closing brace on failure |
| `JsonReader.Reader.ReadArrayValue` | Client/cpp/json/jsoncpp.cpp:687-723 | the same for arrays, empty ones included |
| `JsonReader.Reader.Parse` | Client/cpp/json/jsoncpp.cpp:290-330 | on every octet string: terminates; no error on success, exactly one on failure; node stack balanced; no `readValue` entered after the first error |
| `JsonWriter.FastWriter.Write` | Client/cpp/json/jsoncpp.cpp:4242-4248 | the text of the value and a line feed, nothing kept from earlier calls |
| `JsonWriter.FastWriter.WriteValue` | Client/cpp/json/jsoncpp.cpp:4250-4302 | appends exactly the text of the value |
| `JsonRoundTrip.ReadsBack` | Client/cpp/json/jsoncpp.cpp:332-414 | wherever the text of a value stands in a document, followed by a delimiter, the reader at that place gets the reread value and stops right behind it |
| `JsonRoundTrip.RoundTrip` | Client/cpp/json/jsoncpp.cpp:4242-4302 | parsing what `FastWriter` writes of any real-free value succeeds with its reread form when it nests at most 1000 deep and throws otherwise |
| `JsonRoundTrip.SameExactly` | Client/cpp/json/jsoncpp.cpp:4276-4289 | the reread form is the same document, up to integer tags and null-filled gaps, exactly when every array size fits an `int` |
| `JsonRoundTrip.LongArrayIsLost` | Client/cpp/json/jsoncpp.cpp:4276-4289 | an array holding a null at index 2^31 - 1 prints as `[]` |
| `JsonRoundTrip.WritesTheSame` | Client/cpp/json/jsoncpp.cpp:4242-4302 | writing the reread form gives the same octets |
| `JsonLayout.LaidAppend` | Client/cpp/json/jsoncpp.cpp:426-495 | texts laid out as two lexeme lists join to one laid out as both, unless a number would run on |
| `JsonLayout.LaidTokens` | Client/cpp/json/jsoncpp.cpp:426-495 | any text made of lexemes with white space around them tokenises to those lexemes |
| `JsonStyled.FastLaid` | Client/cpp/json/jsoncpp.cpp:4250-4302 | the fast text is a layout of the value's lexemes |
| `JsonStyledWriter.StyledWriter.Write` | Client/cpp/json/jsoncpp.cpp:4310-4319 | writes exactly the styled text of the value and a line feed, which is a layout of its lexemes, names cut at NUL |
| `JsonStyledWriter.StyledWriter.WriteValue` | Client/cpp/json/jsoncpp.cpp:4321-4378 | at the top or behind a space, appends exactly the styled text at the current indentation, or caches it as a child text |
| `JsonStyledWriter.StyledWriter.WriteObjectValue` | Client/cpp/json/jsoncpp.cpp:4351-4376 | the same for objects, one member to a line |
| `JsonStyledWriter.StyledWriter.WriteArrayValue` | Client/cpp/json/jsoncpp.cpp:4380-4421 | the same for arrays on one line or many; the assertion on the number of cached child texts always holds |
| `JsonStyledWriter.StyledWriter.IsMultilineArray` | Client/cpp/json/jsoncpp.cpp:4423-4449 | answers yes exactly for 25 elements or more, a child container that is not empty, or a line of 74 characters; when it answers no, or has cached anything, the cache holds the text of every element, in order |
| `JsonStyledWriter.StyledLaid` | Client/cpp/json/jsoncpp.cpp:4310-4479 | the styled text at any indentation is a layout of the value's lexemes |
| `JsonStyled.SpellingExactly` | Client/cpp/json/jsoncpp.cpp:4351-4376 | cutting names changes the spelling of the lexemes exactly when some name holds a NUL |
| `JsonStyled.SameTokensExactly` | Client/cpp/json/jsoncpp.cpp:4310-4479 | styled and fast text tokenise to the same tokens exactly when no member name holds a NUL |
| `JsonSame.SameValue` | Client/cpp/json/jsoncpp.cpp:332-723 | two comment-free places with the same tokens ahead read as the same value, fail with the same message or both throw |
| `JsonSame.StyledReadsBack` | Client/cpp/json/jsoncpp.cpp:4310-4479 | reading any styled layout of a value whose names hold no NUL gives its reread form, or throws past 1000 levels |
| `JsonSame.StyleThenParse` | Client/cpp/json/jsoncpp.cpp:4310-4319 | the same of `StyledWriter::write` followed by `Reader::parse` |
| `JsonSame.WriteThenParse` | Client/cpp/json/jsoncpp.cpp:4242-4248 | the same of `FastWriter::write` followed by `Reader::parse`, whatever the names |
| `Rfc8259.LastOneWins` | Client/cpp/json/jsoncpp.cpp:631-685 | the members of an object, stored in order, form a map in which each name has the value of its last member |
| `Rfc8259.ObjectEntries` | Client/cpp/json/jsoncpp.cpp:631-685 | an object has an entry with a name and a value exactly when that is the last member of that name |
| `JsonRfc.DecodeChars` | Client/cpp/json/jsoncpp.cpp:832-940 | a string written with raw octets, two-letter escapes, `\u` escapes of either case and surrogate pairs decodes to the octets they stand for, scalar values in UTF-8 |
| `JsonRfc.NumeralDecoded` | Client/cpp/json/jsoncpp.cpp:735-819 | a numeral without fraction and exponent in range is the exact integer with its tag; any other is the number scanned from its text |
| `JsonRfc.SpacedTokens` | Client/cpp/json/jsoncpp.cpp:426-495 | any RFC 8259 tokens with any of the four white-space octets around them are read as those tokens |
| `JsonRfc.ReadsEveryText` | Client/cpp/json/jsoncpp.cpp:332-723 | on every JSON text of RFC 8259 the reader gives the value the text denotes, or throws past 1000 levels |
| `JsonRfc.ParseText` | Client/cpp/json/jsoncpp.cpp:270-330 | the same of `Reader::parse` |
| `JsonTexts.OctetWritten` | Client/cpp/json/jsoncpp.cpp:4085-4223 | how the writers write one octet: quote, backslash and control characters escaped, by a letter where there is one and else as `\u00` and two upper-case digits |
| `JsonTexts.FastIsText` | Client/cpp/json/jsoncpp.cpp:4242-4302 | what `FastWriter` writes is a JSON text of RFC 8259 that denotes the reread value |
| `JsonTexts.FastIsCompact` | Client/cpp/json/jsoncpp.cpp:4250-4302 | it consists of the tokens alone, nothing between them |
| `JsonTexts.StyledIsText` | Client/cpp/json/jsoncpp.cpp:4310-4479 | what `StyledWriter` writes is such a text too, for the same value when no name holds a NUL |
| `JsonAccepts.TokenShapes` | Client/cpp/json/jsoncpp.cpp:426-629 | only white space is skipped, and a token of each kind has the octets of that kind |
| `JsonAccepts.DecodedFromChars` | Client/cpp/json/jsoncpp.cpp:832-940 | a string that decodes is made of the characters of RFC 8259, raw control octets, lone low surrogates or pairs with any second half, and decodes to their octets |
| `JsonAccepts.AcceptsOnly` | Client/cpp/json/jsoncpp.cpp:332-723 | what the reader accepts of a comment-free text is a document of the looser grammar, and its value is what that document means |
| `JsonAccepts.AcceptsExactly` | Client/cpp/json/jsoncpp.cpp:290-330 | comment-free text is accepted exactly when such a document of at most 1000 levels stands at its start |
| `JsonSame.NulNameIsLost` | Client/cpp/json/jsoncpp.cpp:4351-4376 | an object with the one name NUL is written by both writers, and the texts tokenise differently |
| `BusModel.InvStep` | Client/cpp/VertxBus.cpp:98-562 | every call and every callback the endpoint's contract allows keeps the invariant |
| `BusModel.InvRun` | Client/cpp/VertxBus.cpp:98-562 | so does every run |
| `BusModel.ReachableStates` | Client/cpp/VertxBus.cpp:288-374 | in every reachable state handlers and pending replies exist only while open or closing, and there is one ping thread when `do_ping_` is set and none otherwise |
| `BusModel.FramesAlternate` | Client/cpp/VertxBus.cpp:195-286 | in every connection of every run the frames for an address go register, unregister, register, ...; the last is a register exactly when the address has handlers |
| `BusModel.FailedSendBreaksDelivery` | Client/cpp/VertxBus.cpp:203-223 | a run after which the server has seen only an unregister, since the failed register left its handler in the list |
| `BusRuns.DeliveredAlternateExactly` | Client/cpp/VertxBus.cpp:195-286 | on every connection of every run the frames the server gets for an address alternate exactly when an even number was lost in a row before each that went through; its registration agrees with the local handlers exactly when an even number was lost since the last that went through |
| `BusModel.RepliesFireOnce` | Client/cpp/VertxBus.cpp:418-443 | in a whole run no reply pair is consumed twice, and each makes at most one call |
| `BusModel.NothingFiresAfterClose` | Client/cpp/VertxBus.cpp:322-328 | after a close no reply pair stored before it is ever consumed |
| `BusRuns.HandlersAreLive` | Client/cpp/VertxBus.cpp:195-286 | in every run the handlers of an address are those registered while open and not taken back, in order, since the last close |
| `BusRuns.RepliesArePending` | Client/cpp/VertxBus.cpp:418-443 | in every run the pair waiting at an address is the one stored for it, unless a message used it up or the connection closed |
| `BusRuns.OpenIsOpenNow` | Client/cpp/VertxBus.cpp:288-374 | in every run the client is open exactly when a connection came up and neither went down nor had a `Close` accepted since |
| `BusRuns.RemainingMeans` | Client/cpp/VertxBus.cpp:236-259 | unregistering a plain function takes out the first pair that has it; no handler takes out all; any other handler is never found |
| `BusRuns.FramesHanded` | Client/cpp/VertxBus.cpp:195-286 | in every run the endpoint was handed, on each connection and in order: one envelope for each send and one ping for each time-out while open, a registration for each first handler, an unregistration for each last one, and nothing else |
| `BusRuns.AnswersExactly` | Client/cpp/VertxBus.cpp:98-304 | calls that send answer true exactly when the client was open, the handler was set and every frame handed over was taken; `Connect` exactly when it starts an attempt; `Close` exactly when it turns the open client to closing |
| `BusMessages.InterpretMeans` | Client/cpp/VertxBus.cpp:390-397 | an object is a message for the text of its "address", "" if there is none; it asks for the failure handlers exactly when its "type" is "err"; otherwise it throws exactly when "replyAddress" is a container that is not empty |
| `BusMessages.InterpretOthers` | Client/cpp/VertxBus.cpp:390-397 | null is a message for ""; anything else but an object throws |
| `BusMessages.WriteThenReceive` | Client/cpp/VertxBus.cpp:386-463 | after `OnMessage` of what `FastWriter` writes of such an object there is one more route, and it is the one for its address |
| `BusRuns.RoutesExplained` | Client/cpp/VertxBus.cpp:386-463 | in every run there is one route for each message, in order: to all live handlers, else to the waiting pair, else to the failure callback or the log, with the calls that belong to it |
| `BusRuns.AllCallsInOrder` | Client/cpp/VertxBus.cpp:403-416 | a message calls every reply handler in order, an error every failure handler that is set, in order; a reply address that does not convert calls none |
| `BusRuns.CanOpenExactly` | Client/cpp/VertxBus.cpp:98-374 | some legal run opens the client exactly when it is not stuck, that is connecting or closing with no callback to come |
| `BusRuns.StuckForever` | Client/cpp/VertxBus.cpp:98-374 | a stuck client refuses every call and never changes |
| `BusRuns.RejectedUrlExactly` | Client/cpp/VertxBus.cpp:133-169 | with calls atomic, a client is cut off for good exactly when a URL was once rejected in a `Connect` on the closed client |
| `BusRuns.RejectedUrl` | Client/cpp/VertxBus.cpp:133-169 | one such `Connect` on a fresh client is enough |
| `VertxBus.VertxBus.Connect` | Client/cpp/VertxBus.cpp:98-193 | refines the model step; a client that is not closed is left unchanged and refused |
| `VertxBus.VertxBus.RegisterHandler` | Client/cpp/VertxBus.cpp:195-225 | refines the model step: appended to the list, a frame for the first handler only |
| `VertxBus.VertxBus.UnregisterHandler` | Client/cpp/VertxBus.cpp:230-286 | refines the model step: the whole list, the first equal plain function or nothing goes; a frame when the list runs empty |
| `VertxBus.VertxBus.EraseFirst` | Client/cpp/VertxBus.cpp:244-257 | the search loop takes out the first pair with that handler and no other |
| `VertxBus.VertxBus.SendOrPub` | Client/cpp/VertxBus.cpp:482-514 | refines the model step: a pair is stored under a fresh address exactly when there is a reply handler |
| `VertxBus.VertxBus.Close` | Client/cpp/VertxBus.cpp:288-304 | refines the model step |
| `VertxBus.VertxBus.OnOpen` | Client/cpp/VertxBus.cpp:313-320 | refines the model step; its ping comes before the state is open and sends nothing |
| `VertxBus.VertxBus.OnClose` | Client/cpp/VertxBus.cpp:322-349 | refines the model step: handlers and replies gone, ping thread stopped |
| `VertxBus.VertxBus.OnFail` | Client/cpp/VertxBus.cpp:351-374 | refines the model step |
| `VertxBus.VertxBus.OnMessage` | Client/cpp/VertxBus.cpp:386-463 | parses the payload with the modelled reader and routes it as the model does |
| `VertxBus.VertxBus.CallAll` | Client/cpp/VertxBus.cpp:403-416 | the loop over the copied list makes exactly the calls of the model, and stops where the reply address does not convert |
| `VertxBus.VertxBus.StartPingInterval` | Client/cpp/VertxBus.cpp:533-547 | adds a thread only if none is wanted yet |
| `VertxBus.VertxBus.StopPingInterval` | Client/cpp/VertxBus.cpp:549-562 | joins the one thread there is |
| `BusRaces.DecisionsAlternate` | Client/cpp/VertxBus.cpp:198-281 | however threads interleave between lock and send, decisions alternate per address and the wire carries those decisions and no others |
| `BusRaces.WireAlternatesInOrder` | Client/cpp/VertxBus.cpp:198-281 | if frames go out in the order decided, the wire alternates at every moment |
| `BusRaces.WireAlternatesExactly` | Client/cpp/VertxBus.cpp:198-281 | at every moment of every interleaving the wire alternates for an address exactly when the i-th frame out for it was decided at a rank of the parity of i |
| `BusRaces.ServerAgreesExactly` | Client/cpp/VertxBus.cpp:198-281 | with every frame out, the server agrees with the handler list exactly when the last frame out has the parity of the last decided, as it has if the wire alternates |
| `BusRaces.OutOfOrderWire` | Client/cpp/VertxBus.cpp:198-281 | an interleaving that leaves the server registered and the client without handlers |
| `BusRaces.SplitCloseIsClose` | Client/cpp/VertxBus.cpp:288-304 | with nothing in between, the two halves of `Close` are the atomic one |
| `BusRaces.CloseRaceExactly` | Client/cpp/VertxBus.cpp:288-304 | whatever falls between the halves of any number of `Close` calls, after a second half the client is cut off for good exactly when the endpoint owes it no callback at that moment |
| `BusRaces.CallbackInClose` | Client/cpp/VertxBus.cpp:288-349 | a close callback in between cuts it off; a `Connect` behind that saves it |
| `FrameMask.RightIsDivision` | Client/cpp/websocketpp/websocketpp/frame.hpp:612-620 | the octet-list right shift is division of the word by a power of 256 |
| `FrameMask.LeftIsMultiplication` | Client/cpp/websocketpp/websocketpp/frame.hpp:612-620 | the left shift is multiplication modulo the word size |
| `FrameMask.PreparedCarries` | Client/cpp/websocketpp/websocketpp/frame.hpp:595-604 | the prepared word repeats the key's octets in memory, for both word sizes and byte orders |
| `FrameMask.CircshiftRotates` | Client/cpp/websocketpp/websocketpp/frame.hpp:612-620 | the shift rotates the word's memory image by the offset |
| `FrameMask.CircshiftZero` | Client/cpp/websocketpp/websocketpp/frame.hpp:612-620 | with offset 0 it is the identity, whichever way the machine treats a full-width shift |
| `FrameMask.ByteMask` | Client/cpp/websocketpp/websocketpp/frame.hpp:642-652 | every output octet has a bit set exactly where the input octet and the key octet of its position differ, in place or not; the rest of the output is left alone |
| `FrameMask.WordMaskExact` | Client/cpp/websocketpp/websocketpp/frame.hpp:699-714 | the same result as the octet-wise mask |
| `FrameMask.WordMaskCirc` | Client/cpp/websocketpp/websocketpp/frame.hpp:765-786 | the mask by the prepared word, and the word rotated for the next call |
| `FrameMask.ByteMaskCirc` | Client/cpp/websocketpp/websocketpp/frame.hpp:827-838 | the mask by the prepared word's first four octets, and the rotated word |
| `FrameMask.StreamIsOneMask` | Client/cpp/websocketpp/websocketpp/frame.hpp:765-838 | any mix of the two circular routines over any chunks, threading the key, is one mask of the whole payload |
| `FrameMask.MaskedTwice` | Client/cpp/websocketpp/websocketpp/frame.hpp:642-652 | masking twice gives the payload back |
| `FrameMask.MaskedIsXor` | Client/cpp/websocketpp/websocketpp/frame.hpp:642-652 | section 5.3 of RFC 6455 bit by bit, for a key given as octets |
| `FrameMask.MaskedHello` | Client/cpp/websocketpp/websocketpp/frame.hpp:642-652 | the masked "Hello" of section 5.7 of RFC 6455 |
| `FrameHeader.NewBasicHeader` | Client/cpp/websocketpp/websocketpp/frame.hpp:194-228 | the two octets read back as the flags, the opcode and the length code |
| `FrameHeader.NewExtendedHeader` | Client/cpp/websocketpp/websocketpp/frame.hpp:246-274 | twelve octets: the big-endian length form, the key if masked, zeros |
| `FrameHeader.SwapIsBigEndian` | Client/cpp/websocketpp/websocketpp/common/network.hpp:66-85 | the four swaps give network order on either kind of host |
| `FrameHeader.HeaderRoundTrip` | Client/cpp/websocketpp/websocketpp/frame.hpp:445-585 | for every opcode, flags, key and size below 2^64, decoding the prepared header followed by anything recovers all of them and takes `get_header_len` octets, at most 14, in the shortest form |
| `FrameHeader.WireLayout` | Client/cpp/websocketpp/websocketpp/frame.hpp:489-502 | the prepared header octet by octet as section 5.2 of RFC 6455 lays it out: flags and opcode, mask bit and length or its mark, longer lengths in network order, key |
| `Utf8.TableIsStep` | Client/cpp/websocketpp/websocketpp/utf8_validator.hpp:45-78 | every entry of the table, reached by any octet in any live state, does what the grammar's automaton does |
| `Utf8.AcceptsExactly` | Client/cpp/websocketpp/websocketpp/utf8_validator.hpp:45-78 | the automaton accepts exactly the concatenations of UTF8-char of RFC 3629, section 4 |
| `Utf8.CodepointJustCompleted` | Client/cpp/websocketpp/websocketpp/utf8_validator.hpp:69-78 | back in accept, the code point is the scalar value of the character just completed |
| `Utf8.RejectAbsorbs` | Client/cpp/websocketpp/websocketpp/utf8_validator.hpp:69-78 | nothing leads out of reject |
| `Utf8.WellFormedConcat` | Client/cpp/websocketpp/websocketpp/utf8_validator.hpp:105-118 | behind well-formed text, the whole is well-formed exactly when the rest is |
| `Utf8.Validator.Decode` | Client/cpp/websocketpp/websocketpp/utf8_validator.hpp:105-118 | runs the automaton over the range and fails exactly when it ends rejected; an empty range answers true even then |
| `Utf8.Validate` | Client/cpp/websocketpp/websocketpp/utf8_validator.hpp:143-149 | true exactly on well-formed UTF-8 |
| `Utf8.ValidateChunks` | Client/cpp/websocketpp/websocketpp/utf8_validator.hpp:86-131 | streaming a text in any chunks gives the verdict on the whole text |
| `Streambuf.StreamBuf.Reserve` | Client/cpp/asio/include/asio/basic_streambuf.hpp:299-337 | throws exactly when size and request exceed the maximum; otherwise room is made and the content unchanged; after a throw the content survives exactly when it repeats with the period it was moved by |
| `Streambuf.StreamBuf.Prepare` | Client/cpp/asio/include/asio/basic_streambuf.hpp:204-209 | throws exactly then, with the same effect on the content; otherwise the bytes asked for are writable |
| `Streambuf.StreamBuf.Commit` | Client/cpp/asio/include/asio/basic_streambuf.hpp:223-229 | appends the prepared bytes, at most as many as there are |
| `Streambuf.StreamBuf.Consume` | Client/cpp/asio/include/asio/basic_streambuf.hpp:238-245 | drops from the front, at most everything |
| `Streambuf.StreamBuf.Underflow` | Client/cpp/asio/include/asio/basic_streambuf.hpp:254-265 | shows the first byte or end of file, content unchanged |
| `Streambuf.StreamBuf.Overflow` | Client/cpp/asio/include/asio/basic_streambuf.hpp:274-297 | appends a character, throwing exactly when full, which leaves the content alone; end of file does nothing |
| `Streambuf.StreamBuf.PrepareForRead` | Client/cpp/asio/include/asio/basic_streambuf.hpp:344-350 | preparing what `read_size_helper` advises never throws |
| `Streambuf.StreamBuf.Replay` | Client/cpp/asio/include/asio/basic_streambuf.hpp:204-337 | any run of prepare, fill, commit, consume, overflow and underflow, past exceptions too, leaves the array and shows its callers what the value model does; a run that keeps to the documentation shows them what a byte queue does |
| `Streambuf.ActsAsQueue` | Client/cpp/asio/include/asio/basic_streambuf.hpp:204-337 | filling no more than prepared and committing no more than filled, every caller sees the queue's answers, exceptions and peeked bytes included, and the content is the queue's |
| `Streambuf.ShiftedWindow` | Client/cpp/asio/include/asio/basic_streambuf.hpp:306-317 | when bytes move to the front under a window that stays, what the window shows is unchanged exactly when it is periodic |
| `Streambuf.ThrowScrambles` | Client/cpp/asio/include/asio/basic_streambuf.hpp:299-337 | after three bytes in, one out and a `prepare` that throws, the two bytes left differ from what they were |
| `Uri.ParseUri` | Client/cpp/websocketpp/websocketpp/uri.hpp:50-167 | the constructor's iterator and state variable accept exactly what the grammar does, with the same parts |
| `Uri.ParsesParts` | Client/cpp/websocketpp/websocketpp/uri.hpp:50-167 | a text made of a scheme, a host with or without brackets, an optional port and an optional path is parsed into exactly those, port 443 or 80 if none is written, or refused for its port |
| `Uri.ParsedFromParts` | Client/cpp/websocketpp/websocketpp/uri.hpp:50-167 | every text that is parsed is made of such parts |
| `Uri.PortDigits` | Client/cpp/websocketpp/websocketpp/uri.hpp:320-340 | decimal digits are a port exactly when they denote a number from 1 to 65535, and then that number |
| `Uri.ParsePort` | Client/cpp/websocketpp/websocketpp/uri.hpp:138-166 | its tail: port text up to the next slash, port number, resource |
| `Uri.ParsedShape` | Client/cpp/websocketpp/websocketpp/uri.hpp:50-167 | every parsed URI has a known scheme with its security flag, a port from 1 to 65535 and a resource that starts with a slash |
| `Uri.PortBack` | Client/cpp/websocketpp/websocketpp/uri.hpp:320-340 | a printed port reads back |
| `Uri.RoundTripExactly` | Client/cpp/websocketpp/websocketpp/uri.hpp:273-284 | of every parsed URI, parsing `str()` gives it back exactly when the host has no colon or slash and does not start with a bracket |
| `Uri.UnbracketedIsPlain` | Client/cpp/websocketpp/websocketpp/uri.hpp:119-135 | so it does for every URI written without brackets |
| `Uri.BracketsAreLost` | Client/cpp/websocketpp/websocketpp/uri.hpp:273-284 | `ws://[::1]` parses and does not come back |

## Left out

- JSON floating point: how doubles print and scan is a parameter, and values that hold reals are outside the round trip and the comparison of the writers.
- JsonStyledWriter.StyledWriter.Write: is stated for arrays of fewer than 2^31 and objects of fewer than 2^32 entries; past that the `int` arithmetic on the size overflows.
- JsonReader.Reader.Parse: does not say what a failed parse leaves in the root value, nor the source offsets and `extra_` positions of the error.
- JsonNumber.UintToString: requires room in the buffer, as the source does of its callers; `DigitsFit` shows that they leave enough.
- JsonString.DecodedIsUtf8Exactly: is about bodies in which no escape is cut; `JsonToken.BodyIsClosed` shows that every string token is one.
- JsonAccepts.AcceptsExactly: is about text without comments; where comments may stand is modelled in the reader and not characterised further.
- Which message a refused text gets, beyond there being exactly one.
- Comments kept with values, `StyledStreamWriter`, `BuiltStyledStreamWriter`, `OurReader` and the non-default features: near copies or optional modes.
- String lengths are not limited to 30 or 32 bits, and the null-pointer string value is not modelled.
- The negation of -2^63 in number printing and decoding is taken to wrap.
- `Path`, value construction and memory management in `Value` and `CZString`.
- The JSON text of the frames the bus sends, `MergeHeaders`, and the payloads handed to handlers.
- A message whose `address` is a container throws while `hm_lock_` is held; the model shows the state unchanged, not the lock.
- Handlers that call back into the client while a message is being routed.
- VertxBus.VertxBus.SendOrPub: takes the reply address as a parameter that was never used before, in place of a generated UUID.
- VertxBus.VertxBus.EraseFirst: takes the increment of the just erased list iterator, undefined in C++, to end the loop, which is what the found flag asks for; the build without run-time type information, which always clears the list, is not modelled.
- TLS, logging, real threads and sockets; a ping time-out is an event that can happen whenever a ping thread exists.
- FrameMask.ByteMask: and the other masks are for output that is the input or a separate buffer, not one that overlaps in part.
- FrameMask.CircshiftZero: a shift by the full word width is undefined in C++; both outcomes seen on hardware, zero and unchanged, are covered.
- The `set_*` functions of frame headers and the opcode tables.
- Streambuf.StreamBuf.Commit: counts are unbounded, so the truncation to `int` in `pbump` is not modelled.
- Streambuf.StreamBuf.Consume: counts are unbounded, so the truncation to `int` in `gbump` is not modelled.
- JsonRoundTrip.RoundTrip: and `ReadsBack` are for values without reals, whose text is outside this model.
- The rest of asio and websocketpp, `KvdnClient` and the clients in other languages.
