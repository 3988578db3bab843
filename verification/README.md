# Verification of the transcoder, the RPC client worker and the integer numerals

This project models three parts of the repository in Dafny and proves what they compute. Methods follow the loops and
branches of the C++ code and are proved against specification functions; lemmas then say what those functions mean,
where possible against a definition that does not come from the code: the UTF-8 grammar of RFC 3629, the UTF-16 of
RFC 2781, the JSON strings of RFC 8259, the number a numeral denotes, a parse of the whole stream, a counter of kicks.

**Unicode (`poco/`).** `Utf8Encoding` and `WideEncodings` hold the three encodings, `TextEncoding` the negotiation by
which an encoding asks for more bytes, `TextIterator` and `TextConverter` the two walks over a byte string, and
`Utf8Sanitizer` what a UTF-8 to UTF-8 conversion does to arbitrary bytes. `UnicodeConverter` chains them between
UTF-8, UTF-16 and UTF-32. `Utf8Escape` and `Utf8Unescape` are the escape printer and parser; `UnescapeReading` says
what the parser makes of any text, `EscapeRoundTrip` and `EscapeJson` when it undoes the printer and what a JSON reader
makes of the printer's output.

**RPC (`cthrift/`, `examples/gen-cpp/`).** `Framing` is the client's frame machine, `TimeWheel` the server's four
buckets of idle connections, `BinaryProtocol` the binary protocol with the doubled message header, `ThriftStructs` and
`TransferTypes` the generated classes. `WeightIndex` is the descending multimap of clients by weight, `ServerList`
the reconciling of server lists with the mutually recursive `AddSrv` and `ChgSrv`, `WeightedChoice` the random choice
within the best region, and `WorkerChoice` that choice on a worker whose table and index agree.

**Integers (`poco/NumericString.*`).** `NumericString` prints backwards into a bounded buffer and reverses it,
`NumericParsing` parses with the overflow limit, `NumericLayout` says where separators stand and what fits the buffer,
and `ThousandSeparators` is the grouping of printed numbers.

`MachineInts`, `Options`, `Strings` and the three `Rfc` modules are shared. Integer widths are explicit: `Low32` and
its kin truncate, `Signed32` reinterprets, `TruncDiv` is the division of C++, shifts and masks are written as division
and remainder. Bytes, units and characters are subset types of `int`; a `std::string` of text bytes is a `seq<byte>`.

Things the code does that a reader may not expect, each stated by a lemma below:

- UTF-8 to UTF-16 turns a malformed segment into U+FFFF, not into the default character (`Utf16RoundTrip`).
- `unescape` has no branch for the escapes of backslash, double quote and slash, so it undoes `escape` only on text
  without them (`RoundTripIffUnquoted`).
- Outside strict mode `escape` writes `\a` and `\v`, which JSON does not know (`EscapeIsJson`).
- `intToStr` also writes a separator in front of a leading group of three (`LeadingSeparatorIff`), and the most negative
  64-bit value does not fit its buffer in base 2 (`FitsBuffer`).
- The documentation in `poco/NumericString.h:80-85` promises false on unsuccessful parsing, but in base 10 the limit
  check lets the maximum plus one through, wrapped, and for unsigned types any number of digits behind it: 4294967296123
  is 123 in 32 bits (`OverflowCheckExactIff`, `OverflowReadsOn`).
- A first server list that names an address twice leaves the known services and the connection table with different
  records (`TwiceInFirstList`), until a later list changes the record (`InStepIff`).
- In bases 9 and 11 to 15 `strToInt` refuses every digit from 8 on (`BadCharacterRefused`).
- The UTF-32 negotiation does not end on a unit below -1 whose magnitude is at most the number of bytes left
  (`NegotiationEndsIff`). On a greater one it ends, but the raw walk then drops the rest of the input while the iterator
  goes on behind the unit (`WalksAgreeIff`).

## Model

| member | source | states |
|---|---|---|
| `Utf8Encoding.ComputeQueryConvert` | poco/UTF8Encoding.cpp:154-184 | the loop computes the specification function: -n when fewer than n bytes are offered, -1 for an illegal sequence, the accumulated code point otherwise |
| `Utf8Encoding.Convert` | poco/UTF8Encoding.cpp:112-151 | the buffer holds exactly the encoding in front and is untouched behind it; when the room is too small nothing is written but the size is still returned |
| `Utf8Encoding.LegalMatchesRfc` | poco/UTF8Encoding.cpp:201-243 | for all byte strings, a sequence of the length its lead byte asks for is legal if and only if it is a character of the grammar in section 4 of RFC 3629 |
| `Utf8Encoding.LegalLead` | poco/UTF8Encoding.cpp:201-243 | whatever the length asked for, a legal sequence starts with an ASCII byte or one of C2 to F4, and a single byte is legal exactly then |
| `Utf8Encoding.DecoderMatchesRfc` | poco/UTF8Encoding.cpp:154-184 | given the bytes it asked for, the decoder returns the scalar value of a grammar character, and -1 for everything else |
| `Utf8Encoding.LeadingCharSize` | poco/UTF8Encoding.cpp:187-198 | when a string starts with a grammar character, that character has exactly the size sequenceLength announces |
| `Utf8Encoding.EncoderMatchesRfc` | poco/UTF8Encoding.cpp:112-151 | every Unicode scalar is encoded as a grammar character with that value |
| `Utf8Encoding.EncodeValue` | poco/UTF8Encoding.cpp:112-151 | encoding the value of a grammar character gives its bytes back, so decoding and encoding are inverse both ways |
| `Utf16Encoding.Convert` | poco/UTF16Encoding.cpp:156-190 | one unit or a surrogate pair in native order is written when there is room for all of it; the size is returned in any case |
| `Utf32Encoding.Convert` | poco/UTF32Encoding.cpp:136-148 | four bytes in native order are written when there is room; the size is 4 in any case |
| `TextEncodings.NegotiationProgress` | poco/TextConverter.cpp:81-85 | in all three encodings: while less than the character is offered, the answer asks for more of it and for no more than all of it; once all of it is offered, only a UTF-32 unit below -1 as a signed value makes another demand |
| `TextEncodings.Utf32NegotiationSpins` | poco/UTF32Encoding.cpp:151-169 | for a UTF-32 unit below -1 whose magnitude is at most the bytes left, every round of the loop condition holds again: each demand is met and answered by another demand |
| `TextEncodings.NegotiationEndsIff` | poco/TextConverter.cpp:77-85 | for every encoding and input the negotiation ends after some round if and only if the input does not start with such a unit |
| `TextEncodings.QueryConvertPrefix` | poco/TextIterator.cpp:100-119 | the answer depends only on the bytes offered, so a scratch buffer and the input itself give the same one |
| `TextEncodings.Utf16SegmentIs` | poco/UTF16Encoding.cpp:193-249 | the front of every UTF-16 byte string, from the bytes: a unit, a pair with its number, -1 for a second unit below DC00, or a cut-off rest |
| `TextEncodings.Utf32SegmentIs` | poco/UTF32Encoding.cpp:136-175 | the front of every UTF-32 byte string: the number of its four bytes, which the encoder writes back as those bytes, malformed when negative; or a cut-off rest |
| `TextEncodings.WalksAgreeIff` | poco/TextConverter.cpp:44-113 | iterator and raw walk cut an input into the same segments if and only if nothing follows the first UTF-32 unit below -1: the raw walk drops the rest, the iterator goes on behind the unit |
| `TextIterators.TextIterator.Deref` | poco/TextIterator.cpp:94-129 | operator * yields the code point of the first segment of the remaining input, -1 when malformed or cut off; all it asks is that the negotiation there ends |
| `TextIterators.TextIterator.Advance` | poco/TextIterator.cpp:132-164 | operator ++ moves past exactly the first segment, whose size SegmentIs, Utf16SegmentIs and Utf32SegmentIs give, and never past the end, for any input |
| `Utf8Sanitizer.SegmentIs` | poco/UTF8Encoding.cpp:28-46 | the front of every byte string: a character of the RFC 3629 grammar, or else a malformed segment of 1 byte behind a first byte below C0 or from F8 on, 2 below E0, 3 below F0, else 4, cut off at the end |
| `Utf8Sanitizer.SanitizedStep` | poco/TextConverter.cpp:44-63 | for every byte string: a character in front is copied without an error, a malformed segment of exactly those sizes puts out the default character and counts as one error, and the conversion goes on right behind it |
| `TextConverters.TextConverter.ConvertString` | poco/TextConverter.cpp:44-63 | the iterator walk appends the transformed, re-encoded segments of the input and returns the number of malformed ones, for any encoding pair and transform and every input on which its negotiations end |
| `TextConverters.TextConverter.ReadCharacter` | poco/TextConverter.cpp:77-104 | one round of the raw walk yields the segment there: its code point or the default character, the error flag, and the position behind it, which is the end for an unanswered demand |
| `TextConverters.TextConverter.ConvertBuffer` | poco/TextConverter.cpp:66-113 | the raw walk does the same with its own segments, which are those of the iterator for UTF-8 and UTF-16 |
| `TextConverters.TextConverter.CompareWalks` | poco/TextConverter.cpp:44-113 | where both walks end, the overloads agree on bytes and errors, malformed input included, if and only if nothing follows a UTF-32 unit below -1 (only if: when the default character can be put out at all) |
| `Utf8Sanitizer.SanitizedIsWellFormed` | poco/TextConverter.cpp:44-63 | UTF-8 to UTF-8 with the null transform and a scalar default character always gives well-formed output whose characters are those of the input with each malformed segment replaced |
| `Utf8Sanitizer.ErrorFreeIffWellFormed` | poco/TextConverter.cpp:46-62 | no error is reported if and only if the input is well-formed |
| `Utf8Sanitizer.WellFormedUnchanged` | poco/TextConverter.cpp:44-63 | well-formed input comes out unchanged, whatever the default character |
| `Utf8Sanitizer.SanitizerIsIdempotent` | poco/TextConverter.cpp:44-63 | the output is a fixed point without errors, and an input is a fixed point if and only if it is well-formed |
| `UnicodeConverters.ConvertToUtf32` | poco/UnicodeConverter.cpp:27-39 | the loop appends one unit for each segment of the UTF-8 walk, (UTF32Char) -1 for a malformed one |
| `UnicodeConverters.ConvertToUtf16` | poco/UnicodeConverter.cpp:66-86 | the loop appends one unit or two surrogates for each segment |
| `UnicodeConverters.UnitsStep` | poco/UnicodeConverter.cpp:27-86 | for every byte string: a character in front becomes its RFC 2781 units or its number, a malformed segment one FFFF or FFFFFFFF, and the conversion goes on right behind it |
| `UnicodeConverters.ConvertFromUtf16` | poco/UnicodeConverter.cpp:113-120 | the result is what the UTF-16 to UTF-8 converter appends for the memory image of the units, for any units |
| `UnicodeConverters.ConvertFromUtf32` | poco/UnicodeConverter.cpp:123-130 | the same for UTF-32, for all strings on which the negotiation ends; a unit below -1 that exceeds the bytes left is one malformed segment up to the end |
| `UnicodeConverters.DecodableIff` | poco/UnicodeConverter.cpp:123-130 | the strings for which ConvertFromUtf32 is stated are exactly those on whose memory image the raw walk ends |
| `UnicodeConverters.ToUtf32IsDecodable` | poco/UnicodeConverter.cpp:36-37 | every unit ConvertToUtf32 produces is at least -1 as a signed value, so the way back always terminates |
| `UnicodeConverters.Utf16EncoderMatchesRfc` | poco/UTF16Encoding.cpp:156-190 | for every Unicode scalar the UTF-16 encoder writes the units of section 2.1 of RFC 2781, in native order |
| `UnicodeConverters.Utf32RoundTrip` | poco/UnicodeConverter.cpp:27-39 | for every byte string, UTF-8 to UTF-32 and back is exactly the sanitizer with the default character "?" |
| `UnicodeConverters.Utf16RoundTrip` | poco/UnicodeConverter.cpp:66-86 | for every byte string, UTF-8 to UTF-16 and back is the sanitizer with U+FFFF in place of "?": the -1 of a malformed segment is truncated to the unit 0xFFFF |
| `UnicodeConverters.Utf8RoundTripsIffWellFormed` | poco/UnicodeConverter.cpp:27-130 | both round trips return the same bytes if and only if the input is well-formed UTF-8 |
| `UnicodeConverters.ToUtf16IsWellFormed` | poco/UnicodeConverter.cpp:66-86 | for every byte string the units produced are well-formed UTF-16 (section 2 of RFC 2781) and denote the repaired characters |
| `UnicodeConverters.FromUtf16KeepsScalars` | poco/UnicodeConverter.cpp:113-120 | well-formed UTF-16 becomes well-formed UTF-8 with the same characters, and comes back unit by unit |
| `UnicodeConverters.Utf16RoundTripIffWellFormed` | poco/UnicodeConverter.cpp:66-120 | UTF-16 to UTF-8 and back returns the same units if and only if they are well-formed UTF-16 |
| `Utf8Escape.AppendHex` | poco/NumberFormatter.cpp:93-99 | appends exactly the four upper-case hexadecimal digits of a 16-bit value |
| `Utf8Escape.TakeSequence` | poco/UTF8String.cpp:194-204 | the do loop takes a byte and up to five continuation bytes and yields their number in 32-bit arithmetic, less the offset for the size |
| `Utf8Escape.ContinuationsAre` | poco/UTF8String.cpp:197-203 | the run of continuation bytes 80 to BF is taken whole, up to the limit |
| `Utf8Escape.CodeIs` | poco/UTF8String.cpp:183-204 | the code of every sequence of one to six bytes, well-formed or not, is the number of its payload bits in 32 bits |
| `Utf8Escape.EscapeCharacter` | poco/UTF8String.cpp:206-238 | the chain of tests yields the escape of one code, in either mode |
| `Utf8Escape.Escape` | poco/UTF8String.cpp:181-241 | escape on any byte string, as a function of the input |
| `Utf8Escape.CodeOfChar` | poco/UTF8String.cpp:183-204 | on a grammar character of up to four bytes the shifted sum less its offset is the scalar value, without wrapping |
| `Utf8Escape.EscapedByCharacter` | poco/UTF8String.cpp:192-239 | on well-formed input the sequences taken are exactly the encoded characters |
| `Utf8Unescape.ReadDigits` | poco/UTF8String.cpp:304-310 | the digit loop stores the run of hexadecimal digits, at most the limit, and stops behind it |
| `Utf8Unescape.UnescapeSecondHalf` | poco/UTF8String.cpp:316-347 | the second half of a surrogate pair is fetched when it follows; an unfit half is swallowed |
| `Utf8Unescape.UnescapeRound` | poco/UTF8String.cpp:258-366 | one round yields the code and the bytes consumed, an unknown letter and the end of the string included; UnescapeReading says what each comes out as |
| `Utf8Unescape.Unescape` | poco/UTF8String.cpp:250-374 | unescape on any byte string, as the function that the UnescapeReading rows describe case by case |
| `UnescapeReading.RawBytesCopied` | poco/UTF8String.cpp:258-258 | every stretch of bytes without a backslash is copied unchanged, whatever the bytes are and whatever follows |
| `UnescapeReading.ControlsRead` | poco/UTF8String.cpp:267-301 | the seven one-letter escapes become the bytes 07, 08, 0C, 0A, 0D, 09 and 0B |
| `UnescapeReading.BackslashAloneRead` | poco/UTF8String.cpp:258-301 | a backslash in front of any other byte but u and U, or at the end, comes out as itself and the byte is read next |
| `UnescapeReading.HexTable` | poco/UTF8String.cpp:310-313 | the hexadecimal digits are the sixteen in order, in either case, and no other byte |
| `UnescapeReading.CapitalURead` | poco/UTF8String.cpp:349-366 | \U with any run of up to eight digits puts out the character of their number, nothing above U+10FFFF, a truncated byte for a negative int, and a backslash without digits |
| `UnescapeReading.URead` | poco/UTF8String.cpp:302-314 | \u with any run of up to four digits does the same, unless they are a first surrogate half |
| `UnescapeReading.PairRead` | poco/UTF8String.cpp:316-347 | behind a first half any part of \u and up to four digits is taken: a second half makes the character of the pair, else the first half is put out alone |
| `EscapeRoundTrip.CharacterReadBack` | poco/UTF8String.cpp:258-371 | the escape of one unquoted character is read back to that character, whatever text follows it, hexadecimal digits included |
| `EscapeRoundTrip.PlainTextReadBack` | poco/UTF8String.cpp:181-374 | unescape undoes escape on every text without backslash, double quote and slash, in both modes |
| `EscapeRoundTrip.NeverAfterBackslash` | poco/UTF8String.cpp:260-365 | behind a backslash that no branch consumed, an escaped text never comes out as it was |
| `EscapeRoundTrip.TextReadBackIffUnquoted` | poco/UTF8String.cpp:181-374 | on characters: unescape undoes escape if and only if none of them is a backslash, double quote or slash |
| `EscapeRoundTrip.RoundTripIffUnquoted` | poco/UTF8String.cpp:181-374 | for well-formed UTF-8 and both values of strictJSON, unescape(escape(s)) == s if and only if s contains none of the bytes for backslash, double quote and slash |
| `EscapeJson.EscapeIsChar` | poco/UTF8String.cpp:206-238 | each escape is one JSON character (section 7 of RFC 8259) denoting the escaped one, except the escapes for U+0007 and U+000B outside strict mode |
| `EscapeJson.EscapeIsJson` | poco/UTF8String.cpp:181-241 | for well-formed UTF-8 the result is printable ASCII; it is a legal JSON string body denoting exactly the characters of s if and only if the mode is strict or s has neither U+0007 nor U+000B |
| `NumericStrings.DigitOfRemainder` | poco/NumericString.h:286-288 | the character taken from the mirrored digit string for tmpVal - value * base is the digit of abs(tmpVal) % base under truncating division, for negative values too |
| `NumericStrings.PutDigits` | poco/NumericString.h:281-294 | the backwards digit loop leaves the digits of abs(value) and its separators at the end of the text, checks every write against the buffer end and remembers the sign |
| `NumericStrings.PutRest` | poco/NumericString.h:296-316 | zeros, prefix, sign and outer padding complete the reversed text, or a write would pass the end |
| `NumericStrings.ReverseInPlace` | poco/NumericString.h:323-330 | the two-ended swap loop reverses the first n characters and changes nothing else |
| `NumericStrings.IntToStr` | poco/NumericString.h:259-333 | the buffer holds the formatted text and its terminator and the size is its length; a bad base leaves an empty string; an exception is thrown exactly when the text is longer than the size given, and never after a write past it |
| `NumericStrings.UIntToStr` | poco/NumericString.h:337-408 | the same for unsigned types |
| `NumericLayout.SeparatorsOnlyAdded` | poco/NumericString.h:289-293 | taking the separators out leaves the plain digits |
| `NumericLayout.SeparatorPositions` | poco/NumericString.h:289-293 | counted from the right every fourth character is a separator and all others are digits |
| `NumericLayout.SeparatedLength` | poco/NumericString.h:289-293 | d digits get one separator for every three of them |
| `NumericLayout.LeadingSeparatorIff` | poco/NumericString.h:289-293 | a separator stands in front of the first digit if and only if the number of digits is a multiple of three |
| `NumericLayout.FitsBuffer` | poco/NumericString.h:39-39 | for every 64-bit value and width below 65, text and terminator fit the 65-character buffer if and only if it is not the most negative value in base 2 |
| `NumericParsing.StrToInt` | poco/NumericString.h:80-168 | the parser returns true exactly when the specification has a value, and then that value: white space, sign, separators, letters and the limit check as in the switch |
| `NumericParsing.DigitTable` | poco/NumericString.h:108-146 | the digit table by which a numeral denotes a number: the sixteen digits in order, letters in either case, and nothing else |
| `NumericParsing.DigitOfIs` | poco/NumericString.h:108-146 | strToInt reads a digit of that table for what it is, all sixteen in base 16, ten in base 10, the first eight in any other base, and no other character |
| `NumericParsing.SpacesAre` | poco/NumericString.h:88-88 | exactly the characters 9 to 13 and 32 are passed over in front |
| `NumericParsing.SeparatorsAre` | poco/NumericString.h:148-161 | exactly the separator asked for is passed over, in base 10, when it is a comma, a full stop or a space |
| `NumericParsing.BadCharacterRefused` | poco/NumericString.h:108-163 | in a text without sign, a character that is no such digit and no separator, anywhere in front of a NUL, makes the whole parse fail |
| `NumericParsing.WrapIs` | poco/NumericString.h:117-164 | an overflow is wrapped into the range by a multiple of its size |
| `NumericParsing.ParsedExactlyIffFits` | poco/NumericString.h:104-167 | in every base a numeral of digits and separators that it reads gives exactly the number that the digit table makes of it, if and only if that number is at most the type maximum |
| `NumericParsing.OverflowCheckExact` | poco/NumericString.h:105-138 | when the base divides the maximum plus one, success means that the value fits, and gives it |
| `NumericParsing.OverflowCheckExactIff` | poco/NumericString.h:105-138 | the limit check is exact for all numerals if and only if the base divides the maximum plus one (for two-power types: bases 2, 4, 8 and 16) |
| `NumericParsing.SmallestOverflowAccepted` | poco/NumericString.h:105-119 | in every other base each numeral of the maximum plus one is accepted with a wrapped value |
| `NumericParsing.OverflowReadsOn` | poco/NumericString.h:105-119 | for an unsigned type the digits behind such a numeral are then read as a number of their own, so arbitrarily large numerals are accepted |
| `NumericParsing.SignedExactlyIffFits` | poco/NumericString.h:90-98 | behind a plus sign a numeral is read exactly if and only if it fits; behind a minus sign it is refused for unsigned types, and else read exactly if and only if it is at most the maximum, or the maximum plus one where that passes the limit check |
| `NumericParsing.BodyDenotes` | poco/NumericString.h:284-294 | the printed digits, separated or not, are a legal numeral denoting the printed magnitude |
| `NumericParsing.PrintParseRoundTrip` | poco/NumericString.h:80-333 | strToInt(intToStr(v)) is v in bases 2 to 8, 10 and 16, any width, fill zero or space, with or without separators, if and only if no "0x" prefix was printed |
| `NumericParsing.PlainDecimal` | poco/NumericString.h:259-333 | without width, prefix and separator the printed text is a minus sign for a negative number and the decimal digits of the magnitude, without leading zeros |
| `ThousandSeparators.FindGroupingEnd` | poco/NumericString.cpp:93-109 | the search for exponent and decimal separator ends where grouping starts |
| `ThousandSeparators.InsertThousandSep` | poco/NumericString.cpp:86-123 | the in-place walk terminates and leaves the grouped string, for any input |
| `ThousandSeparators.SeparatorsCanBeDeleted` | poco/NumericString.cpp:86-123 | deleting the separators restores any input that had none |
| `ThousandSeparators.ThreesPositions` | poco/NumericString.cpp:108-122 | in a grouped digit string a separator stands exactly at the positions between digits whose distance from the end is a multiple of three |
| `ThousandSeparators.IntegerPartGrouped` | poco/NumericString.cpp:86-123 | for sign, digits, fraction and exponent, only the integer part is grouped, in threes |
| `Framing.ConnContext.HandleMsg` | cthrift/cthrift_client_worker.cc:816-833 | one frame is dispatched and retrieved, and the state waits for a size again |
| `Framing.ConnContext.OnMsg` | cthrift/cthrift_client_worker.cc:835-880 | the callback loop terminates, empty frames included, and leaves the frames, state and buffer of one parse of what was buffered |
| `Framing.ConnContext.ReceiveAll` | cthrift/cthrift_client_worker.cc:835-880 | a stream arriving in any chunks dispatches the frames of one parse of the whole stream |
| `Framing.ParseAppend` | cthrift/cthrift_client_worker.cc:856-879 | parsing in one go is parsing a prefix, then the carried state with the leftover and the rest |
| `Framing.ChunkingIrrelevant` | cthrift/cthrift_client_worker.cc:856-879 | for every way of cutting a stream into chunks: same frames, state and leftover |
| `Framing.StreamConserved` | cthrift/cthrift_client_worker.cc:856-879 | dispatched frames with their sizes, then the carried state and leftover, are exactly the stream: nothing is lost, doubled or reordered |
| `Framing.SentFramesReceived` | cthrift/cthrift_client_worker.cc:816-879 | whatever follows, a stream of length-prefixed frames is dispatched frame by frame as it was sent |
| `TimeWheel.ConnThread.ConnThreadInit` | cthrift/cthrift_svr.cc:494-503 | the wheel starts with four empty buckets |
| `TimeWheel.ConnThread.OnConn` | cthrift/cthrift_svr.cc:267-291 | a new connection enters the last bucket and is counted; one that goes down is uncounted |
| `TimeWheel.ConnThread.Touch` | cthrift/cthrift_svr.cc:416-429 | a message puts the entry into the last bucket, unless it has expired |
| `TimeWheel.ConnThread.TimewheelKick` | cthrift/cthrift_svr.cc:490-492 | the first bucket falls out; the entries held nowhere else are destroyed and their connections, if still up, shut down |
| `TimeWheel.WheelRefinesCounters` | cthrift/cthrift_svr.cc:267-291 | every event on the wheel is the same event on plain counters of kicks since the last activity, with the same connections shut down |
| `TimeWheel.RunRefinesCounters` | cthrift/cthrift_svr.cc:267-492 | over every run of connects, messages, disconnects and kicks the wheel holds exactly the entries whose plain counter of kicks since the last activity is below 4 |
| `TimeWheel.IdleConnectionExpires` | cthrift/cthrift_svr.cc:416-492 | over every run in which a held connection is not touched: it is held and up exactly while fewer than four kicks have passed since its activity, and shut down exactly once |
| `TimeWheel.ShutAtFourthKick` | cthrift/cthrift_svr.cc:416-492 | after any activity it is shut down at the fourth kick and not earlier |
| `TimeWheel.ExpiredForGood` | cthrift/cthrift_svr.cc:418-421 | over every run an expired entry is never revived and its connection never shut down again |
| `TimeWheel.ActivityResets` | cthrift/cthrift_svr.cc:275-286 | a connect, or a message on a held entry, sets the counter back to zero |
| `TimeWheel.HeldOpenIsConnected` | cthrift/cthrift_svr.h:26-32 | over every run a held connection that its peer has not closed is connected |
| `WeightIndexes.WeightIndex.Insert` | cthrift/cthrift_client_worker.h:16-20 | the multimap stays in descending order, the new element behind its equals, and its iterator is new |
| `WeightIndexes.WeightIndex.Erase` | cthrift/cthrift_client_worker.cc:23-23 | exactly the element under the iterator goes |
| `WeightIndexes.ToldApart` | cthrift/util/cthrift_common.cc:43-45 | two weights are told apart exactly when their difference is at least 2^-52 |
| `ServerList.ConnInfo.SetTcpClient` | cthrift/cthrift_client_worker.cc:35-53 | an earlier index entry is erased, and one with the new client is entered, under the fweight when that is told apart from 0 and else under the weight |
| `ServerList.ConnInfo.UptSgservice` | cthrift/cthrift_client_worker.cc:13-33 | afterwards the owned entry carries the new weight, fweight or else weight, if and only if old and new weight are equal or told apart; then it is the only change, else the index is untouched |
| `ServerList.EffectiveWeightIs` | cthrift/cthrift_name_service.cc:247-251 | a record is indexed under its fweight, up to the tolerance, when that is told apart from 0, and else under its weight |
| `ServerList.KeyIs` | cthrift/cthrift_client_worker.cc:315-328 | the key is the address, a colon and the plain decimal digits of the port |
| `ServerList.KeysTellPorts` | cthrift/cthrift_client_worker.cc:315-328 | the key tells two ports of an address apart |
| `ServerList.Worker.Connect` | cthrift/cthrift_client_worker.cc:558-581 | a server not in the table gets a connection, a client of its own and its index entry; index and table stay in agreement |
| `ServerList.Worker.Change` | cthrift/cthrift_client_worker.cc:650-651 | a server in the table gets the new record, keeps its connection and client, and index and table stay in agreement |
| `ServerList.Worker.AddSrv` | cthrift/cthrift_client_worker.cc:527-590 | for every list, repeated addresses included: terminates, keeps the agreement of index and table, enters the records one by one (the last of an address wins), keeps every connection and client |
| `ServerList.Worker.ChgSrv` | cthrift/cthrift_client_worker.cc:620-662 | the same contract; the mutual recursion with AddSrv ends because a list of known addresses is never handed back |
| `ServerList.OneEntryEach` | cthrift/cthrift_client_worker.h:22-46 | the agreement means: every connection owns exactly one index entry, with its client and its fweight or else weight, and every entry has exactly one connection |
| `ServerList.Worker.Reconcile` | cthrift/cthrift_client_worker.cc:287-407 | the four branches: the known services become the live records of the list, with the lists of added, deleted and changed records |
| `ServerList.ListsApplied` | cthrift/cthrift_client_worker.cc:332-388 | into any table that agrees with the known services, entering the added and then the changed records is entering the whole list |
| `ServerList.ListsLeave` | cthrift/cthrift_client_worker.cc:332-388 | whatever the table was: an address in the added or changed list ends with its known record, and any other address is left alone, as its known record is |
| `ServerList.ReconciledByLists` | cthrift/cthrift_client_worker.cc:287-407 | with no address twice: added, deleted and changed share no key, hold exactly what came, left and differs, and applying them to the old map gives the new map |
| `ServerList.ReconciledIsList` | cthrift/cthrift_client_worker.cc:287-407 | with no address twice the known services are exactly the status-2 records of the list, whatever they were before |
| `ServerList.Worker.UpdateSvrList` | cthrift/cthrift_client_worker.cc:287-411 | for every old state and list, table in step with the known services or not: index and table agree, the known services become the live records, the table gets what was added and changed, all connections and clients stay; and it says exactly when the table is in step afterwards |
| `ServerList.InStepIff` | cthrift/cthrift_client_worker.cc:287-411 | that condition, from any known services and table: after a first list, first and last record of each address are equal; after a later one, the addresses it names without adding or changing them were in step before |
| `ServerList.FromStep` | cthrift/cthrift_client_worker.cc:287-411 | from a table in step the live records are entered one by one, and it is in step again unless a first list names an address with different first and last records |
| `ServerList.FirstIsLastEntered` | cthrift/cthrift_client_worker.cc:300-328 | keeping the first record of each address (map insert) and keeping the last (the table) agree if and only if first and last record of every address are equal |
| `ServerList.TwiceInFirstList` | cthrift/cthrift_client_worker.cc:324-326 | a first list with two different records of one address is such a case |
| `ServerList.Worker.UpdateAll` | cthrift/cthrift_client_worker.cc:287-411 | over every run of any lists, repeated addresses included: agreement of index and table throughout, the known services and the table that the lists make one by one, no connection or client ever replaced |
| `ServerList.RunInStep` | cthrift/cthrift_client_worker.cc:287-411 | over every run the known services stay in the table; the table stays in step when every list that meets no known services has equal first and last records; and a run ends in step if and only if its last list settles it |
| `ServerList.DistinctRun` | cthrift/cthrift_client_worker.cc:287-411 | lists without repeated addresses meet that condition, and the last one gives the known addresses |
| `WeightedChoice.Collect` | cthrift/cthrift_client_worker.cc:163-231 | the first loop, whatever each look finds: expired and unknown entries are erased as far as it goes, and the gathered classes are those of exactly the healthy connections of the best region that has one |
| `WeightedChoice.Gather` | cthrift/cthrift_client_worker.cc:203-229 | a healthy connection joins the class of its weight, starts a new class and adds the finished one to the total, or ends the pool |
| `WeightedChoice.LastTotal` | cthrift/cthrift_client_worker.cc:230-244 | the running total with the last class is the sum of the weights of all considered connections |
| `WeightedChoice.PickWeight` | cthrift/cthrift_client_worker.cc:252-268 | the second loop returns the class whose prefix-sum interval holds the draw, and always one that exists |
| `WeightedChoice.ChooseNextReadyConn` | cthrift/cthrift_client_worker.cc:146-285 | -1 exactly for an empty index, 1 exactly when no connection is healthy, else 0 and a client of the class of the best region whose interval holds the draw; the "not find weight" exit is unreachable |
| `WeightedChoice.ClassShare` | cthrift/cthrift_client_worker.cc:255-259 | the interval of a class is as long as its weight times its number of connections |
| `WeightedChoice.OneOwner` | cthrift/cthrift_client_worker.cc:255-266 | no draw belongs to two classes |
| `WeightedChoice.OneChosen` | cthrift/cthrift_client_worker.cc:252-279 | a random number and a pick fall on one client only |
| `WeightedChoice.RegionsFall` | cthrift/cthrift_client_worker.cc:90-97 | a lesser weight is never of a better region, so stopping at the first worse region loses nothing |
| `WeightedChoice.PoolIs` | cthrift/cthrift_client_worker.cc:90-97 | an entry is in the pool exactly when it is healthy and of weight at least 1.0, if some healthy one is; else at least 0.001, if some healthy one is; else whatever its weight |
| `WorkerChoice.NothingToErase` | cthrift/cthrift_client_worker.cc:164-199 | while index and table agree and peers are at their configured addresses, no look finds an entry to erase |
| `WorkerChoice.Choose` | cthrift/cthrift_client_worker.cc:146-285 | on such a worker the index is unchanged, and a client is returned if and only if some connection is up and healthy, and then one of those |
| `BinaryProtocol.HtonllMemory` | cthrift/cthrift_tbinary_protocol.cc:14-17 | for every int64_t, negative ones included, the sum of two htonl halves has all eight bytes in network order |
| `BinaryProtocol.HtonllInvolution` | cthrift/cthrift_tbinary_protocol.cc:14-22 | ntohll undoes htonll for every int64_t |
| `BinaryProtocol.Protocol.WriteI32` | cthrift/cthrift_tbinary_protocol.cc:288-293 | the memory written is the number in network order |
| `BinaryProtocol.Protocol.WriteI64` | cthrift/cthrift_tbinary_protocol.cc:295-300 | the same for eight bytes |
| `BinaryProtocol.Protocol.WriteString` | cthrift/cthrift_tbinary_protocol.cc:316-324 | size and bytes, the size truncated to 32 bits, and the count returned |
| `BinaryProtocol.Protocol.WriteMessageBeginMemory` | cthrift/cthrift_tbinary_protocol.cc:61-106 | the header is written twice, with a fresh id in place of 0, and the count is that of both |
| `BinaryProtocol.Protocol.WriteMessageBeginTransport` | cthrift/cthrift_tbinary_protocol.cc:108-160 | a client with id 0 gets a fresh id, an empty buffer, and the id in decimal on its transport; otherwise the header is appended |
| `BinaryProtocol.Protocol.ReadStringBody` | cthrift/cthrift_tbinary_protocol.cc:558-600 | negative size, size limit, empty string and end of data, and otherwise the bytes |
| `BinaryProtocol.Protocol.ReadMessageBegin` | cthrift/cthrift_tbinary_protocol.cc:334-367 | the reader returns the header or throws, as its specification says, and counts the bytes it took |
| `BinaryProtocol.Protocol.GetSeqID` | cthrift/cthrift_tbinary_protocol.cc:25-53 | the id of the first header, which is consumed; 0 for what is no header |
| `BinaryProtocol.HeaderBytes` | cthrift/cthrift_tbinary_protocol.cc:61-106 | a header with version starts with the bytes 80 01 00 and the type, and goes on with name and id; one without is name, type, id |
| `BinaryProtocol.VersionBytes` | cthrift/cthrift_tbinary_protocol.cc:25-53 | a size is taken for a version exactly when its first two bytes are 80 01 |
| `BinaryProtocol.IdTextIs` | cthrift/cthrift_tbinary_protocol.cc:128-134 | the id on the transport is the plain decimal of the number |
| `BinaryProtocol.FieldBeginBytes` | cthrift/cthrift_tbinary_protocol.cc:201-219 | a field starts with its type and its id, high byte first, and a stop is a zero byte |
| `BinaryProtocol.I64ReadBack` | cthrift/cthrift_tbinary_protocol.cc:517-527 | a written int64_t is read back whatever follows |
| `BinaryProtocol.StringReadBack` | cthrift/cthrift_tbinary_protocol.cc:543-600 | a string of less than 2^31 bytes is read back exactly when it is within the limit, and refused otherwise |
| `BinaryProtocol.HeaderReadBack` | cthrift/cthrift_tbinary_protocol.cc:334-367 | for every mode and limit, what readMessageBegin makes of what writeMessageBegin wrote: the same header, or the exception of a strict reader without version or of a long name; a one-byte type above 127 comes back negative without version |
| `BinaryProtocol.DoubleHeader` | cthrift/cthrift_tbinary_protocol.cc:25-106 | on the double header GetSeqID returns the id and leaves exactly one header, which readMessageBegin then reads, in front of the message |
| `BinaryProtocol.SeqIdOfHeader` | cthrift/cthrift_tbinary_protocol.cc:25-53 | wherever readMessageBegin succeeds, GetSeqID reads the same bytes and returns the same id |
| `BinaryProtocol.SeqIdCounter.Next` | cthrift/cthrift_tbinary_protocol.cc:70-77 | the next id, back to 1 at the largest int32 |
| `BinaryProtocol.GeneratedIdsDistinct` | cthrift/cthrift_tbinary_protocol.cc:68-79 | generated ids are positive, which the receiving worker insists on, and two are equal if and only if a multiple of 2^31 - 2 calls lie between them |
| `ThriftStructs.Record.Write` | examples/gen-cpp/transfer_types.cpp:244-327 | a generated write appends the fields that are required or set, then the stop, and returns their size in 32 bits |
| `ThriftStructs.Record.Read` | examples/gen-cpp/transfer_types.cpp:91-242 | a generated read assigns fields in any order until the stop, raises their flags, passes over fields of unknown id or other type as skip says, and returns the size read; or it throws |
| `ThriftStructs.StructReadBack` | examples/gen-cpp/transfer_types.cpp:91-327 | for every field table: reading what was written, followed by anything, into a fresh object gives an equal object, raises exactly the flags of the written fields and leaves exactly what followed |
| `ThriftStructs.AllEqualMembers` | examples/gen-cpp/transfer_types.h:110-163 | equality of two objects is equality member by member: always for a required one, and for an optional one that both have it set or neither, and equal values if set |
| `ThriftStructs.AnyOrderReadBack` | examples/gen-cpp/transfer_types.cpp:104-237 | for every order of the written fields, at every depth, and with fields the class does not know anywhere between them, the same object is read |
| `ThriftStructs.WriterArranges` | examples/gen-cpp/transfer_types.cpp:244-327 | the text a generated write produces is one of those arrangements |
| `ThriftStructs.OrderIrrelevant` | examples/gen-cpp/transfer_types.cpp:104-237 | reading distinct fields in two orders gives the same object |
| `TransferTypes.LoginParamReadBack` | examples/gen-cpp/transfer_types.cpp:91-327 | LoginParam: equal under operator == after writing and reading, in any field order and with unknown fields between, for strings within the limit |
| `TransferTypes.OneFileDeriveExReadBack` | examples/gen-cpp/transfer_types.cpp:1161-1238 | OneFileDeriveEx: the same, with the fields of the nested OneFile in any order too |
| `TransferTypes.LoginParamText` | examples/gen-cpp/transfer_types.cpp:244-327 | every byte a LoginParam is written as: which member stands under which type code and id, in which order, which only when set, and the stop |
| `TransferTypes.OneFileText` | examples/gen-cpp/transfer_types.cpp:1059-1087 | the same for a OneFile |
| `TransferTypes.OneFileDeriveExText` | examples/gen-cpp/transfer_types.cpp:1218-1238 | the same for a OneFileDeriveEx, with the whole text of the OneFile under id 1 |
| `TransferTypes.LoginParamFresh` | examples/gen-cpp/transfer_types.h:58-59 | the default constructor leaves zeros, empty strings and no flag |
| `TransferTypes.LoginParamEqual` | examples/gen-cpp/transfer_types.h:110-163 | operator == of LoginParam: the five required members equal, and for each of the ten optional ones both flags or neither, and equal members when set |
| `TransferTypes.OneFileDeriveExEqual` | examples/gen-cpp/transfer_types.h:426-500 | operator == of OneFileDeriveEx and of the OneFile in it: all members equal, whatever the flags |

## Left out

- Byte-flipped UTF-16 and UTF-32, and big-endian machines: the decoders drop the flipped value, and the rest is the native order.
- Ill-formed UTF-16: the decoder is modelled with the test it has (`uc` where `uc2` is meant), but properties are stated with well-formedness as the condition.
- TextConverters.TextConverter.ConvertString: asks that the negotiation ends at each of its segments, as TextIterators.TextIterator.Deref does at one and TextConverters.TextConverter.ConvertBuffer at its own; where it does not, the source never returns, or its iterator reads past its buffer.
- TextEncodings.NegotiationEndsIff: the demand for a unit of 0x80000000 is taken as 2^31; in the source the negation overflows int.
- The decoders that take a whole character at once (`convert(const unsigned char*)`), `toUpper`, `toLower`, `icompare`, character tables and byte-order marks.
- MAX_SEQUENCE_LENGTH comes from TextEncoding.h, which is not part of the repository; it is taken as 6.
- Utf8Unescape.Unescape: reading the end of the string after a lone backslash is taken to give NUL, and strtol to have 64 bits.
- NumericStrings.IntToStr: when the text fills the given size exactly, the terminator is written without a bounds check; the caller is asked for room for it.
- NumericParsing.PrintParseRoundTrip: leaves out the most negative value of a signed type, whose parsing overflows the type; overflow of signed types is modelled as wrapping throughout, in NumericParsing.SmallestOverflowAccepted and NumericParsing.SignedExactlyIffFits too.
- Floating-point formatting and parsing.
- ThousandSeparators.IntegerPartGrouped: the input is sign, digits, fraction and exponent without separators; for other input only termination and deletion are stated.
- Framing.ConnContext.OnMsg: HandleThriftMsg is replaced by a log of dispatched frames, the muduo buffer by its readable bytes, and a connection always has its context. A negative size, as a `size_t`, is never satisfied.
- The server's frame loop, which has no exit while a body is incomplete, and worker dispatch; of the server's message callback only the touch is modelled.
- TimeWheel: each connection object comes up once and down at most once, and after a shutdown connected() is false; times are kicks.
- ServerList.Worker.UpdateSvrList: weights in use are equal or at least epsilon apart, over exact reals; ServerList.ConnInfo.UptSgservice says what happens otherwise. Known services are under their own keys, as UpdateSvrList always leaves them. Ports print as decimal, so the lexical_cast branches cannot occur.
- ServerList.Worker.AddSrv: its loop is a method of its own, AddNew, as ChangeKnown is in ChgSrv; the parts of UpdateSvrList are Enter, Reconcile and Follow.
- DelSrv, whose body is commented out in the source, destruction of connections, and ClearTcpClient.
- WeightedChoice.ChooseNextReadyConn: its two loops and what stands between them are methods of their own, Collect, PickWeight and Draw; weights are reals that are not negative and told apart; rand() and the state of each connection are inputs, floating-point rounding is not modelled.
- WorkerChoice.Choose: assumes that a live connection's peer address is the configured one.
- atomic_avaliable_conn_num_, the asynchronous path and its wheel, sockets, threads, timers, logging, name service.
- BinaryProtocol.Protocol.ReadStringBody: the borrow and heap paths are one; lists, maps, sets, bool and double are left out.
- BinaryProtocol.StringReadBack: strings of 2^31 bytes or more, whose written size reads as negative, are not read back.
- ThriftStructs.Record.Read: TProtocol::skip belongs to the Thrift library and is a parameter that says how many bytes it takes, or that it throws; the recursion limits are left out.
- ThriftStructs.Record: the members of a generated class are a map by field id, and its switch a table, instead of one member and one case each; the nested object is read into a copy and stored back.
- The other generated classes and service stubs.
