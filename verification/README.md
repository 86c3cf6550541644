# Verified model of the anyserver core

anyserver reads its configuration with an embedded JSON library and serves clients over TCP
and WebSocket. This Dafny project models the two parts of it where a mistake is easiest to make
and hardest to see, and proves what they promise.

**The JSON codec** (`anyserver/external/json/jsoncpp.cpp`).

- `Readers.Reader` is `Json::Reader` with its default features and without comment collection: a
  cursor, a stack of pointers into the tree that is being built, a depth counter and an error
  list. A pointer is modelled as the keys that lead to its target (module `Places`), because the
  nodes of a `std::map` do not move. Every method is proved against the functional
  recursive-descent parser in `Syntax`, over the token grammar in `Lexer`.
- `Texts` and `Acceptance` give an independent account: the texts of RFC 8259, what they denote,
  and the proof that the parser reads every one of them as its denotation. `Spellings` proves that
  any two documents with the same lexemes are read alike, `Prefixes` that an error is final,
  `Completions` that a document which is rejected at its end is only cut off,
  `Offsets` that the recorded source offsets mean what they say, `Errors` that error reports are
  true, `BadEscapes` which strings are rejected, and `Leniency` where the parser differs from the
  RFC. `Comments` says byte by byte what a comment is and where one may stand.
- `FastWriter`, `StyledWriter` and `RoundTrip` model both printers as objects and prove that the
  reader inverts them, up to canonical form, on every value without null strings whose printed
  reals can be read, and that both documents of any value with NUL-free names are read alike.
  `Layout` defines the styled layout without state, as what the stateful `StyledWriter` is proved
  to arrive at; `LayoutLaws` says what the document looks like without it, with an automaton that
  knows only the open brackets.
- `Strings`, `Unicode` and `Numbers` hold the codecs for strings, characters and integers;
  `Order`, `Arrays` and `Paths` the comparison of values, the operations that change an array in
  place, and path look-up and creation.

**The connection lifecycle** (`anyserver/src`). `Registries` models the client list and the
protocol of connect, receive and disconnect notifications. `TcpServers` models the epoll loop and
`WebSocketServers` the callback dispatcher as transition systems whose environment chooses the
events, with the loops themselves as methods that refine them. `Attribution` says, from those events
alone, whose notification each one is.

Conventions:

- The document is `[begin_, end_)` followed by a NUL, at which the code looks but which it does
  not consume; the caller of `parse(begin, end, root)` has to provide it.
- `Value` is a payload with its two source offsets. `Bare` forgets the offsets. A `std::map` is
  the list of its entries in order. Masks and shifts are written as division and remainder.
- `decodeDouble` and the printing of doubles come from the C library and are parameters; reals are
  NaN-free numbers, and a printed real is assumed to be a number token with a digit in it.
- A `CZString` keeps 30 bits of the length of a name (line 2683), so `NameKey` cuts longer names
  as the code does, and `WellFormed` bounds the names that a map holds. A `Value` holds strings of
  at most maxInt - 5 bytes (line 2544); `WellFormed` and `ValidText` bound strings accordingly.
  Documents are assumed to have no longer string and no array of more than 2^31 elements, which
  none of at most maxInt - 5 bytes has.
- C++ exceptions are results: `Exception` in the reader, `false` or `None` elsewhere.
- An unsigned 32-bit `size()` wraps, as in the code.
- Assumptions about the environment are predicates: `TcpServers.Plausible` (accept returns a
  number that is not open, a batch has at most one event for a descriptor, live client ids are
  distinct and not zero) and `WebSocketServers.Allowed` (a descriptor is removed before it is
  reused, data arrives only on connections that are established and not removed, the same about ids).

Places where the code is not what its documentation or a reader would expect, all kept in the
model and proved in `Leniency` or, for the depth counter, by `Readers.Reader.ReadValue`: a closing brace is accepted after a comma if the name before the comma is empty; after a
comment behind an object member any token passes for the comma; no comment may stand before a
colon or inside an empty array; a lone minus is the integer 0; a NUL byte inside the document is
an end of stream; anything may follow the root value; the depth counter is not counted back when
a value is missing; the second half of a surrogate pair is not checked to be one.

## Model

| member | source | states |
|---|---|---|
| Readers.Reader.Parse | anyserver/external/json/jsoncpp.cpp:308-348 | `parse(begin, end, root)` leaves in the caller's value what the functional parser reads; without an exception it returns true exactly if `good()`, and false leaves exactly one error, however deep the recovery went; the node stack is back to the root |
| Readers.Reader.ReadValue | anyserver/external/json/jsoncpp.cpp:350-432 | Refinement: the cursor, errors, stack and result are those of the functional parser; only the subtree at the top of `nodes_` is written; `nodes_` is restored on every return and `stackDepth_g` on success; after a failure the counter is one too high exactly if a value was missing; the exception comes with exactly 1000 enclosing containers on the stack, and always comes there |
| Readers.Reader.ReadMember | anyserver/external/json/jsoncpp.cpp:682-684 | Creating a member, pushing a pointer to it, reading and popping is, for the whole tree, writing that one member |
| Readers.Reader.ReadObject | anyserver/external/json/jsoncpp.cpp:649-703 | The whole object, from its brace, as the functional parser reads it, with its offsets; nothing outside the current node changes |
| Readers.Reader.ReadMembers | anyserver/external/json/jsoncpp.cpp:654-703 | The member loop: duplicate names overwrite, errors recover to the closing brace, comments are allowed where the code allows them |
| Readers.Reader.ReadArray | anyserver/external/json/jsoncpp.cpp:705-741 | The whole array, from its bracket, with its offsets; empty only if the closing bracket follows white space |
| Readers.Reader.ReadItems | anyserver/external/json/jsoncpp.cpp:717-741 | The element loop, terminating on every byte sequence |
| Readers.Reader.ReadToken | anyserver/external/json/jsoncpp.cpp:444-513 | Every byte sequence: a token of the lexical grammar, the cursor stays in the document, and it moves forward except at the end of the stream |
| Readers.Reader.ReadString | anyserver/external/json/jsoncpp.cpp:637-647 | Stops just past the first quote that is not escaped, or fails at the end |
| Readers.Reader.ReadNumber | anyserver/external/json/jsoncpp.cpp:615-635 | Takes the longest run of digits, fraction and exponent |
| Readers.Reader.ReadComment | anyserver/external/json/jsoncpp.cpp:536-558 | Where block and line comments end, and when a comment is incomplete; Comments.CommentsExactly and Comments.IncompleteComment state it byte by byte |
| Readers.Reader.ReadCStyleComment | anyserver/external/json/jsoncpp.cpp:590-597 | The first star that a slash follows ends the comment, looking at most one byte past the document, at its closing NUL |
| Readers.Reader.ReadCppStyleComment | anyserver/external/json/jsoncpp.cpp:599-613 | A line ends at LF, CR or the pair, taken together; what that means is stated byte by byte in Comments.CommentsExactly |
| Readers.Reader.Match | anyserver/external/json/jsoncpp.cpp:525-534 | All of the word is consumed, or nothing |
| Readers.Reader.RecoverFromError | anyserver/external/json/jsoncpp.cpp:949-960 | Terminates on every input, skips to the wanted token or an end of stream, and keeps the recorded errors |
| Readers.Reader.DecodeChunk | anyserver/external/json/jsoncpp.cpp:832-876 | The decoder never leaves the token; the unescaped-quote exit and the "Empty escape sequence" error are unreachable |
| Readers.Reader.DecodeStringToken | anyserver/external/json/jsoncpp.cpp:828-879 | The decoded bytes, or one error |
| Readers.Reader.DecodeUnicodeCodePoint | anyserver/external/json/jsoncpp.cpp:881-908 | One or two escapes, joined, or one error |
| Readers.Reader.DecodeUnicodeEscapeSequence | anyserver/external/json/jsoncpp.cpp:910-937 | Four digits before the end of the token give their value, by Unicode.CaseDoesNotMatter the one that their capitals print; otherwise one error says why not |
| Comments.CommentsExactly | anyserver/external/json/jsoncpp.cpp:536-613 | A slash begins a comment token that ends at e if and only if two slashes, a line without LF and CR and its end (LF, CR, both, or the end of the document) stand there up to e, or a slash and a star up to the first star and slash |
| Comments.CommentTexts | anyserver/external/json/jsoncpp.cpp:536-613 | The same for texts: line comments with each of their four ends, and block comments, are one token |
| Comments.IncompleteComment | anyserver/external/json/jsoncpp.cpp:536-597 | A slash that begins no comment is an error token, to the end of the document or with the next byte |
| Comments.NextRemarked | anyserver/external/json/jsoncpp.cpp:434-442 | Behind any comments that stand where they are allowed, the next lexeme is the next token |
| Slices.NumberTokensExactly | anyserver/external/json/jsoncpp.cpp:615-635 | A text is a number token if and only if it is a digit or a minus and digits, perhaps a point and digits, perhaps an e, a sign and digits, any row of which may be empty |
| Slices.NumberIsLongest | anyserver/external/json/jsoncpp.cpp:615-635 | readNumber takes the longest such text that stands at a place |
| Lexer.UnreadableTokens | anyserver/external/json/jsoncpp.cpp:487-511 | Incomplete words and bytes that begin nothing are error tokens of one byte, an unterminated string one to the end of the document |
| Strings.ChunkAt | anyserver/external/json/jsoncpp.cpp:832-876 | Lexer and decoder stay in step: after each successful turn the decoder stands where the lexer has stood, inside the token, and has produced something |
| Strings.DecodingIsTheGrammar | anyserver/external/json/jsoncpp.cpp:828-937 | A token decodes to s if and only if it is a spelling of s by the grammar of section 7 of RFC 8259, extended by raw control bytes and unpaired surrogates |
| Strings.DecodingFailsOnEscapes | anyserver/external/json/jsoncpp.cpp:828-937 | A token that the lexer accepts can fail to decode only because of a bad escape |
| BadEscapes.DecodingFailsExactly | anyserver/external/json/jsoncpp.cpp:828-937 | A token is rejected with a message if and only if, after pieces that can be read, a backslash begins no escape in the way the message says: an unknown letter, digits cut off or not digits, no second escape after D800 to DBFF |
| Strings.DecodedIsShorter | anyserver/external/json/jsoncpp.cpp:828-879 | A token decodes to fewer bytes than it has, so a document of at most maxInt - 5 bytes has no string that is too long for a Value |
| Strings.StringsAreAccepted | anyserver/external/json/jsoncpp.cpp:637-647 | Whatever the string grammar spells is one token, and decodes to its meaning |
| Strings.QuotedRoundTrip | anyserver/external/json/jsoncpp.cpp:4285-4346 | For every byte string, NUL included, the written text is one token and decodes to the original bytes |
| Strings.ValueToQuotedStringN | anyserver/external/json/jsoncpp.cpp:4285-4346 | The fast path and the escaping loop write the same text |
| Strings.ValueToQuotedString | anyserver/external/json/jsoncpp.cpp:4208-4267 | Its own test for the fast path and its own loop, which stop at the first NUL, write what valueToQuotedStringN writes of the bytes before that NUL |
| Strings.EscapeCString | anyserver/external/json/jsoncpp.cpp:4223-4264 | The loop that stops at a NUL writes the escaped bytes before it |
| Strings.FindAnyInCString | anyserver/external/json/jsoncpp.cpp:4212-4213 | Whether a byte before the first NUL is one of the given |
| Strings.ContainsControl | anyserver/external/json/jsoncpp.cpp:4118-4124 | Whether a byte before the first NUL is a control character |
| Strings.EscapeBytes | anyserver/external/json/jsoncpp.cpp:4301-4344 | The escaping loop writes, byte by byte, a standard spelling of the string |
| Strings.FindAny | anyserver/external/json/jsoncpp.cpp:4271-4284 | The first byte of the string that is one of the given, or none |
| Strings.ContainsControl0 | anyserver/external/json/jsoncpp.cpp:4126-4134 | Whether some byte is a control character or NUL |
| Strings.EscapedCharacterDecodes | anyserver/external/json/jsoncpp.cpp:881-937 | Every scalar value written as one or two escapes decodes to its UTF-8 form |
| Strings.EscapesInAnyCaseDecode | anyserver/external/json/jsoncpp.cpp:881-937 | The same with the digits in any mixture of cases |
| Strings.ShortEscapesAreTheRfcs | anyserver/external/json/jsoncpp.cpp:843-866 | Each of the eight two-character escapes of section 7 of RFC 8259 is read as the character in its table, and there are no others |
| Strings.NoSpellingIsShorter | anyserver/external/json/jsoncpp.cpp:4301-4344 | No spelling of a string that RFC 8259 allows is shorter than what the writer prints |
| Strings.EscapesAreEncodable | anyserver/external/json/jsoncpp.cpp:881-937 | An accepted escape, paired or not, is at most U+10FFFF, and the encoder returns something for it |
| Unicode.Utf8Decodes | anyserver/external/json/jsoncpp.cpp:104-130 | The encoder's octets are, by section 4 of RFC 3629, the character that was encoded |
| Unicode.Utf8Encodes | anyserver/external/json/jsoncpp.cpp:104-130 | Every octet sequence of that syntax is what the encoder writes for its character |
| Unicode.Utf8Injective | anyserver/external/json/jsoncpp.cpp:104-130 | Different characters have different encodings |
| Unicode.SurrogateRoundTrip | anyserver/external/json/jsoncpp.cpp:888-900 | Joining the halves of section 2.1 of RFC 2781 gives the character back; joining any two units gives a code point beyond the first plane and within Unicode |
| Unicode.HexDigitsInOrder | anyserver/external/json/jsoncpp.cpp:920-932 | A character is the digit n exactly if it is the n-th of 0 to 9 and A to F, in either case |
| Unicode.CaseDoesNotMatter | anyserver/external/json/jsoncpp.cpp:920-932 | Four characters stand for u if and only if their capitals are what u prints as |
| Unicode.Hex4IsPositional | anyserver/external/json/jsoncpp.cpp:4332-4340 | A printed escape has the digits of its number by their places, in capitals |
| Numbers.DecodeNumberToken | anyserver/external/json/jsoncpp.cpp:753-793 | The accumulator never exceeds 64 bits; a token that is a fitting integer gets its exact value, every other token goes to the conversion of reals |
| Numbers.IntegerExactness | anyserver/external/json/jsoncpp.cpp:753-793 | A token of digits is stored exactly, in the type its size asks for, if and only if it lies between -2^63 and 2^64-1, whether or not decodeDouble could convert it; any other goes to decodeDouble |
| Numbers.OverflowIsReal | anyserver/external/json/jsoncpp.cpp:772-783 | The threshold test rejects a digit only if no continuation of the row can fit |
| Numbers.NumberRoundTrip | anyserver/external/json/jsoncpp.cpp:753-793 | Decoding inverts printing on all int64 and uint64, up to the choice between the two integer types |
| Numbers.UintToString | anyserver/external/json/jsoncpp.cpp:149-155 | The digits are written backwards from the given place, behind a closing NUL; the rest of the buffer is untouched |
| Numbers.ValueToString | anyserver/external/json/jsoncpp.cpp:4136-4158 | Every 64-bit integer, with sign and NUL, stays inside the 25-byte buffer and prints as its decimal text |
| Numbers.DecimalReads | anyserver/external/json/jsoncpp.cpp:149-155 | Printed digits stand for the printed number and have no leading zero |
| Numbers.DecimalIsPositional | anyserver/external/json/jsoncpp.cpp:149-155 | The k-th printed digit from the right is the digit of the number that is worth ten to the k |
| Acceptance.JsonTextsAreAccepted | anyserver/external/json/jsoncpp.cpp:350-741 | Every RFC 8259 text, whatever its white space and whatever the caller's value held, parses to its denotation, and throws exactly if some value in it has 1000 enclosing containers; numbers that are no 64-bit integers denote what decodeDouble gives, if it gives something |
| Acceptance.RemarkedTextsAreAccepted | anyserver/external/json/jsoncpp.cpp:350-741 | The same for texts with comments anywhere but before a colon and in an empty array |
| Acceptance.WhiteSpaceDoesNotMatter | anyserver/external/json/jsoncpp.cpp:515-523 | Two spellings of one text that differ in white space and in such comments are read alike |
| Acceptance.LastDuplicateIsRead | anyserver/external/json/jsoncpp.cpp:649-703 | In an object that is read, each name has the value of the last field with its key |
| Texts.LastOfEqualNamesWins | anyserver/external/json/jsoncpp.cpp:682 | The denotation of an object keeps its members ordered and gives each key the value of the last field that has it |
| Texts.NextLexeme | anyserver/external/json/jsoncpp.cpp:444-513 | Where a document spells a lexeme after white space, the lexer returns exactly this lexeme; a number is not cut short or prolonged by what may follow it |
| Texts.RfcNumbersAreTokens | anyserver/external/json/jsoncpp.cpp:615-635 | Every number of section 6 of RFC 8259 is taken as one token, with its fraction and exponent |
| Spellings.LayoutDoesNotMatter | anyserver/external/json/jsoncpp.cpp:350-741 | Any two documents that spell the same lexemes, JSON text or not, are read alike: the same tree, or the same error at the same kind of token, or both throw |
| Spellings.RecoveryAlike | anyserver/external/json/jsoncpp.cpp:949-960 | Recovery from an error stops before the same lexemes in both |
| Leniency.TrailingCommaAfterEmptyName | anyserver/external/json/jsoncpp.cpp:664-701 | A closing brace after a comma is accepted if and only if the name before the comma is empty |
| Leniency.LoneMinusIsZero | anyserver/external/json/jsoncpp.cpp:753-793 | A document that is a minus sign is read as the integer 0 |
| Leniency.AnythingIsACommaAfterComment | anyserver/external/json/jsoncpp.cpp:690-699 | Behind a member, the token after a comment passes for the comma whatever it is |
| Leniency.NoCommentBeforeColon | anyserver/external/json/jsoncpp.cpp:676-680 | A comment before a colon is reported as the missing colon |
| Leniency.NoCommentInEmptyArray | anyserver/external/json/jsoncpp.cpp:709-741 | An array with nothing but comments inside is rejected |
| Leniency.NulIsAnEndOfStream | anyserver/external/json/jsoncpp.cpp:502-504 | A NUL byte is an end of stream wherever it stands |
| Leniency.AnythingMayFollow | anyserver/external/json/jsoncpp.cpp:329-347 | What follows the root value is not looked at |
| Leniency.SecondHalfIsNotChecked | anyserver/external/json/jsoncpp.cpp:888-900 | Any four digits pass for the second half of a surrogate pair, while the RFC's grammar wants a low surrogate |
| Errors.ErrorIsTruthful | anyserver/external/json/jsoncpp.cpp:939-967 | The one error of a failed parse names a token of the document, and its message is true of that token; for a string it says which escape is bad, as BadEscapes.DecodingFailsExactly does |
| Prefixes.ErrorIsFinal | anyserver/external/json/jsoncpp.cpp:308-348 | Every document that begins with the same bytes, to four bytes behind the token of the error, has the same error: no continuation repairs it |
| Prefixes.ValueIsFinal | anyserver/external/json/jsoncpp.cpp:308-348 | A value that was read is read alike from every document that begins with the same bytes, to four bytes behind it |
| Completions.CutOffCanBeCompleted | anyserver/external/json/jsoncpp.cpp:308-348 | A document whose tokens can be read and whose error is its end is only cut off: something can be put behind it so that it is no longer rejected, by a value, a colon or brackets for all that are open |
| Errors.RecoverIsFirst | anyserver/external/json/jsoncpp.cpp:949-960 | Recovery reads tokens one after the other and stops behind the first that is wanted, or an end of stream |
| Errors.FailedArray | anyserver/external/json/jsoncpp.cpp:705-741 | An array with an error is left behind a closing bracket, or an end of stream, and keeps every element before the error and the one with it |
| Errors.FailedObject | anyserver/external/json/jsoncpp.cpp:649-703 | An object with an error is left behind a closing brace, or an end of stream, and loses no name |
| Slices.ValueSlice | anyserver/external/json/jsoncpp.cpp:350-741 | A value read inside a part of the document is read in the same way from that part alone, and at any smaller depth |
| Offsets.OffsetsAreMeaningful | anyserver/external/json/jsoncpp.cpp:350-432 | After a successful parse every surviving value lies strictly inside its container and beside its siblings, begins with its own text and no white space or comment, and parsing its part of the document alone succeeds with a value equal under `operator==`, to the end of that part |
| FastWriters.FastWriter.Write | anyserver/external/json/jsoncpp.cpp:4365-4371 | Exactly the tokens of the value, with nothing between them, and a line feed |
| FastWriters.FastWriter.WriteValue | anyserver/external/json/jsoncpp.cpp:4373-4425 | Appends exactly the tokens of the value to what was written before |
| FastWriters.MemberFound | anyserver/external/json/jsoncpp.cpp:3647-3663 | Iterating over the member names and looking each one up visits the entries in order |
| StyledWriters.StyledWriter.Write | anyserver/external/json/jsoncpp.cpp:4433-4442 | The document is the layout of the value and a line feed, and it is well laid out: the automaton of LayoutLaws reads it |
| LayoutLaws.DocumentIsWellLaid | anyserver/external/json/jsoncpp.cpp:4433-4571 | For every value: the document follows the automaton, which permits a line feed, a blank or a bracket only where the open brackets ask for it |
| LayoutLaws.LinesAreIndented | anyserver/external/json/jsoncpp.cpp:4580-4601 | Behind every line feed but the last there are three blanks for each open bracket, and one step less before a closing bracket, unless a null string comes before it |
| LayoutLaws.RowsBeginLines | anyserver/external/json/jsoncpp.cpp:4444-4544 | A comma or an opening bracket is followed by a line feed, unless it belongs to an array on one line or an empty container; a colon stands between two blanks |
| LayoutLaws.OneLineExactly | anyserver/external/json/jsoncpp.cpp:4546-4571 | An array is printed without a line feed if and only if no element is nested and its line is shorter than 74; null strings, which have no length, can make arrays of 25 elements and more an exception |
| StyledWriters.StyledWriter.WriteValue | anyserver/external/json/jsoncpp.cpp:4444-4501 | While children are collected it adds exactly one entry and leaves the document alone; otherwise the document goes on with the layout of the value at the current indentation, whatever was written before; the indentation is restored |
| StyledWriters.StyledWriter.WriteArrayValue | anyserver/external/json/jsoncpp.cpp:4503-4544 | The layout of the array, on one line, from collected entries or by recursion; the assertion on the number of entries holds |
| StyledWriters.StyledWriter.WriteRow | anyserver/external/json/jsoncpp.cpp:4514-4522 | A collected entry and a child that is written now look the same |
| StyledWriters.StyledWriter.IsMultilineArray | anyserver/external/json/jsoncpp.cpp:4546-4571 | An array goes on one line if and only if no element is nested and that line, whose 32-bit length is compared, is shorter than the margin; afterwards there is no entry, or one for each element with its text |
| StyledWriters.StyledWriter.MeasureLine | anyserver/external/json/jsoncpp.cpp:4555-4569 | The entry that is measured exists, and the sum is the length of the line that would be written |
| StyledWriters.StyledWriter.WriteIndent | anyserver/external/json/jsoncpp.cpp:4580-4589 | A new line with the indentation where one is needed, and then the writer stands where a value may begin |
| Layouts.LaidSpells | anyserver/external/json/jsoncpp.cpp:4444-4544 | For every value and indentation, the layout spells the tokens of the value |
| Layouts.JoinedSpells | anyserver/external/json/jsoncpp.cpp:4533-4542 | So do the elements on one line |
| RoundTrip.FastRoundTrip | anyserver/external/json/jsoncpp.cpp:4365-4425 | For every value without null strings whose printed reals can be read: reading what FastWriter wrote gives its canonical form (integers retyped by size, reals as their text is decoded, array holes null), and throws exactly if the value nests beyond the limit |
| RoundTrip.WritersAgree | anyserver/external/json/jsoncpp.cpp:4433-4501 | Both writers print the same token sequence if and only if no name has a NUL byte |
| RoundTrip.WritersAreReadAlike | anyserver/external/json/jsoncpp.cpp:4433-4501 | For every value with NUL-free names, null strings and reals included: the documents of both writers are read alike |
| RoundTrip.NullStringsAreLost | anyserver/external/json/jsoncpp.cpp:4386-4395 | A null string prints nothing: an array that holds only one is read back as an empty array |
| RoundTrip.SpelledValueIsRead | anyserver/external/json/jsoncpp.cpp:350-741 | For the same values: any layout of the tokens of a value is read as its canonical form |
| RoundTrip.WriteAndRead | anyserver/external/json/jsoncpp.cpp:4365-4371 | The two objects together, for the same values: `FastWriter::write`, then `Reader::parse` |
| RoundTrip.WriteStyledAndRead | anyserver/external/json/jsoncpp.cpp:4433-4442 | The two objects together, for the same values with NUL-free names: `StyledWriter::write`, then `Reader::parse` |
| RoundTrip.WriteBothAndRead | anyserver/external/json/jsoncpp.cpp:4433-4442 | The three objects together: both documents give the same result and the same tree |
| Order.StrictTotalOrder | anyserver/external/json/jsoncpp.cpp:2953-3059 | On all NaN-free trees: irreflexive, and `compare` is zero exactly for equal values; exactly one of a < b, a == b, b < a holds, and `compare` is antisymmetric, if and only if no map sizes that differ by 2^31 modulo 2^32 are met on the way to the first difference; trees with fewer than 2^31 entries in every map never meet any |
| Order.Trichotomy | anyserver/external/json/jsoncpp.cpp:2961-3057 | On all trees one of the three holds, equal values are never below each other, and both can be below the other exactly if the size difference wraps |
| Order.Transitivity | anyserver/external/json/jsoncpp.cpp:2961-3006 | `operator<` is transitive |
| Order.CompareTransitivity | anyserver/external/json/jsoncpp.cpp:2953-2959 | `compare` orders any three values consistently, ties included |
| Order.EqualIsBareEquality | anyserver/external/json/jsoncpp.cpp:3014-3057 | `operator==` is equality of everything but the source offsets |
| Order.LessRespectsEqual | anyserver/external/json/jsoncpp.cpp:2961-3057 | Equal values may stand for one another on both sides of `operator<` |
| Order.SizeComesFirst | anyserver/external/json/jsoncpp.cpp:2976-3002 | Null strings sort below all strings, and containers by the size of their maps before anything else |
| Order.FirstDifferenceDecides | anyserver/external/json/jsoncpp.cpp:2997-3002 | Among maps of one size the first entry that differs decides |
| Order.ScalarsAscend | anyserver/external/json/jsoncpp.cpp:2961-2995 | Integers and reals ascend by value, false is below true, and a string is below another if it is a proper prefix or has the smaller byte at the first difference |
| Order.CompareIsNegativeBelow | anyserver/external/json/jsoncpp.cpp:2953-2964 | `compare` is negative exactly for the smaller value, and values of different types stand in the order null, int, uint, real, string, boolean, array, object |
| Order.ContainersAscend | anyserver/external/json/jsoncpp.cpp:2997-3002 | At the first entry that differs the smaller index or name decides, then the smaller value |
| Order.OrderFailsOnHugeMaps | anyserver/external/json/jsoncpp.cpp:2999 | With 2^31 entries the size difference wraps: an array is then below and above the empty one |
| Order.OrderHoldsExactly | anyserver/external/json/jsoncpp.cpp:2961-3057 | `operator<` is a strict total order, trichotomous and transitive, on all trees with maps below a limit, if and only if the limit is at most 2^31 |
| Values.KeyTrichotomy | anyserver/external/json/jsoncpp.cpp:2720-2744 | Map keys are totally ordered, and the order agrees with their equality |
| Values.NameKeyIsName | anyserver/external/json/jsoncpp.cpp:2679-2684 | A name is its own map key if and only if it is shorter than 2^30 bytes; a longer one has the key of its prefix of the remaining length |
| Values.NamesStayApart | anyserver/external/json/jsoncpp.cpp:2679-2684 | Short names have different keys; a name of 2^30 bytes has the key of the empty name |
| Bytes.BytesTransitive | anyserver/external/json/jsoncpp.cpp:2720-2732 | The comparison of byte strings is transitive |
| Bytes.BytesLessIsLexicographic | anyserver/external/json/jsoncpp.cpp:2720-2732 | One byte string is below another if and only if it is a proper prefix or has the smaller byte at the first difference |
| FastWriters.NamesAscend | anyserver/external/json/jsoncpp.cpp:3647-3663 | The member names of an object are listed in that order |
| Arrays.Cell.Element | anyserver/external/json/jsoncpp.cpp:3396-3410 | `operator[]` makes a null an array and an absent element null, changes nothing else, and refuses other types |
| Arrays.Cell.Append | anyserver/external/json/jsoncpp.cpp:3543 | Writes the value under the index size() and changes nothing else |
| Arrays.Cell.Resize | anyserver/external/json/jsoncpp.cpp:3378-3394 | Growing adds the last element only, shrinking keeps exactly the entries below the new size, and the call throws if the size is then another |
| Arrays.Cell.RemoveIndex | anyserver/external/json/jsoncpp.cpp:3597-3618 | Every later element moves down by one, holes among them become null, everything before stays, and nothing happens if the element is absent |
| Arrays.AppendIsSequenceAppend | anyserver/external/json/jsoncpp.cpp:3543 | On a dense array append is sequence append if and only if size() has not wrapped around at 2^32 |
| Arrays.ResizeIsTruncation | anyserver/external/json/jsoncpp.cpp:3378-3394 | On a dense array a resize to at most its length truncates the sequence if and only if size() has not wrapped or nothing is kept; with 2^32 elements every element stays |
| Arrays.ResizeGrows | anyserver/external/json/jsoncpp.cpp:3386-3387 | Growing creates the last element as null, keeps every other one, and gives the new size if and only if the size had not wrapped |
| Arrays.ShrinkingAssertion | anyserver/external/json/jsoncpp.cpp:3392 | On any array the assertion of a shrinking resize holds if and only if the new last element exists |
| Arrays.RemoveIsDeletion | anyserver/external/json/jsoncpp.cpp:3597-3618 | On a dense array removeIndex deletes one element of the sequence |
| Paths.Document.Make | anyserver/external/json/jsoncpp.cpp:4001-4018 | Creates the path and returns the place at the end of it; where the code throws, it throws before anything has changed |
| Paths.Resolve | anyserver/external/json/jsoncpp.cpp:3982-3999 | Walks the path, or returns the default |
| Paths.ResolvedExactly | anyserver/external/json/jsoncpp.cpp:3982-3999 | The result is the value at the place if it is there and every index on the way is below its size, null for a hole at the end of the path, and the default otherwise |
| Paths.MakeFailsExactly | anyserver/external/json/jsoncpp.cpp:4001-4018 | make throws if and only if the path runs into an existing value of another type |
| Paths.MakeIsIdempotent | anyserver/external/json/jsoncpp.cpp:4001-4018 | A second make changes nothing, before and after an assignment to the returned node |
| Paths.ResolveReturnsAssigned | anyserver/external/json/jsoncpp.cpp:3982-4018 | After make and assignment, resolve returns the assigned value for every default if and only if the path is addressable: neither an index on it nor an array along it has the index 2^32-1, at which size() wraps to zero |
| Paths.MakeAssignResolve | anyserver/external/json/jsoncpp.cpp:3982-4018 | The three calls on one object: make, assign through the node, resolve gives the assigned value exactly on addressable paths, and a path that cannot be made changes nothing |
| Paths.LargestIndexIsLost | anyserver/external/json/jsoncpp.cpp:3330-3342 | The law does fail at that index: resolve returns the default |
| Paths.MakeKeepsTheRest | anyserver/external/json/jsoncpp.cpp:4001-4018 | Values present on paths that are neither above nor below the made one are unchanged |
| Registries.Registry.AddClientInfo | anyserver/src/base_server_impl.cpp:39-43 | Appends the client and returns its id |
| Registries.Registry.RemoveClientInfoByFd | anyserver/src/base_server_impl.cpp:45-61 | Removes the first client with the descriptor and returns its id, or changes nothing and returns zero |
| Registries.Registry.RemoveClientInfoById | anyserver/src/base_server_impl.cpp:63-77 | The same by client id |
| Registries.Registry.FindClientInfoByFd | anyserver/src/base_server_impl.cpp:79-91 | The first client with the descriptor, or none |
| Registries.Registry.FindClientInfoById | anyserver/src/base_server_impl.cpp:93-104 | The first client with the id, or none |
| Registries.RemovalByFd | anyserver/src/base_server_impl.cpp:45-61 | In a list with distinct ids and descriptors, removal takes out exactly the one client with the descriptor, and returns zero exactly if there is none |
| Registries.RemovalById | anyserver/src/base_server_impl.cpp:63-77 | The same by client id |
| Registries.FoundIsFirst | anyserver/src/base_server_impl.cpp:79-104 | In any list, the look-ups find the first client with the descriptor or id |
| Registries.ConnectionShape | anyserver/src/base_server_impl.cpp:39-77 | In a trace that follows the protocol, everything a client receives and its disconnection comes after a connection of its own that has not ended, and nobody connects twice in between |
| TcpServers.RunIsSafe | anyserver/src/inet_domainsocket_tcp_server.cpp:130-164 | Over every run, after every event of every batch: registry descriptors are distinct and equal the watched ones, connected clients in the trace are the registered ones, and the look-up for received data never fails, even when accept reuses a number closed in the same batch |
| TcpServers.PendingStep | anyserver/src/inet_domainsocket_tcp_server.cpp:133-163 | Within a batch, descriptors with an event still to come stay watched and registered |
| TcpServers.TraceShape | anyserver/src/inet_domainsocket_tcp_server.cpp:143-161 | What a listener sees: connected, then received data, then at most one disconnected, for each connection |
| TcpServers.TraceIsAttributed | anyserver/src/inet_domainsocket_tcp_server.cpp:133-163 | Over every run the notifications are those that the events demand, in order |
| TcpServers.EventIsReported | anyserver/src/inet_domainsocket_tcp_server.cpp:146-161 | Data, and the end of a connection, are reported for the client for which the descriptor was accepted last, with that data |
| TcpServers.ConnectionIsDelivered | anyserver/src/inet_domainsocket_tcp_server.cpp:143-161 | While a connection lasts, a listener receives for its client exactly the data of its descriptor, in order |
| TcpServers.TcpServer.HandleBatch | anyserver/src/inet_domainsocket_tcp_server.cpp:132-163 | The loop over one batch does what the transition system does and stays safe |
| TcpServers.TcpServer.EpollThread | anyserver/src/inet_domainsocket_tcp_server.cpp:111-168 | The thread stays safe from batch to batch until it is stopped |
| WebSocketServers.RunIsSafe | anyserver/src/websocket_tcp_server.cpp:260-338 | Over every run, after every event: no look-up fails, the registered descriptors are those of the connections that are established and not removed, and the notifications for non-zero ids follow the protocol |
| WebSocketServers.TraceShape | anyserver/src/websocket_tcp_server.cpp:274-332 | Every visible disconnection ends one earlier connection that had not ended; no client is disconnected twice |
| WebSocketServers.TraceIsAttributed | anyserver/src/websocket_tcp_server.cpp:274-332 | Over every run the notifications are those that the events demand, in order, up to stop() |
| WebSocketServers.EventIsReported | anyserver/src/websocket_tcp_server.cpp:294-332 | Data, and the first removal of a connection, are reported for the client that was established last on the descriptor, with that data |
| WebSocketServers.ConnectionIsDelivered | anyserver/src/websocket_tcp_server.cpp:294-332 | While a connection lasts, a listener receives for its client exactly the data of its descriptor, in order |
| WebSocketServers.RegistryIsUnmatchedConnects | anyserver/src/websocket_tcp_server.cpp:274-332 | The registered clients are exactly those whose connection has no disconnection yet |
| WebSocketServers.SecondRemovalIsInvisible | anyserver/src/websocket_tcp_server.cpp:309-332 | Of the two removal events of a connection, in either order, the second changes no client and notifies for id zero only |
| WebSocketServers.RemovalIsVisibleOnce | anyserver/src/websocket_tcp_server.cpp:309-332 | A removal is visible exactly if the descriptor had a client, and leaves none |
| WebSocketServers.WebSocketServer.Callback | anyserver/src/websocket_tcp_server.cpp:260-338 | One callback does what the transition system does and stays safe |
| WebSocketServers.WebSocketServer.WebSocketThread | anyserver/src/websocket_tcp_server.cpp:230-241 | The service loop stays safe over every sequence of callbacks |

## Left out

- StyledWriters.StyledWriter.IsMultilineArray: object sizes are not cut to 32 bits, so objects of 2^32 members are not modelled.
- Readers.Reader.Parse: models neither comment collection nor the options strictRoot, dropped null placeholders and numeric keys; documents with more than 2^31 elements in one array, where the int index overflows, or with a string of more than maxInt - 5 bytes, where the constructor of the Value throws, are not modelled.
- Numbers.DecodeNumberToken: the digits of reals are a parameter, because they come from the C library.
- Acceptance.JsonTextsAreAccepted: strings of more than maxInt - 5 bytes are not texts of the grammar, because no Value can hold them, and what a number that is no 64-bit integer denotes is left to the parameter.
- Errors.ErrorIsTruthful: that a document which is wrong before its end was acceptable up to there is not stated; Prefixes.ErrorIsFinal and Completions.CutOffCanBeCompleted tell an error from a document that is only cut off.
- RoundTrip.FastRoundTrip: null strings, which print nothing, are excluded, and so are reals whose printed text the conversion parameter refuses; arrays of more than 2^31 elements are subject to the limit on documents.
- Paths.Resolve: arguments are map keys, so a name of 2^30 bytes or more stands for its cut key.
- Order.StrictTotalOrder: reals are numbers, so NaN, which is unordered, does not occur.
- Paths.Document.Make: parsing a path string into arguments, and `resolve` without a default, are not modelled.
- Registries.Registry.RemoveClientInfoById: no run uses it, so no lifecycle property is stated about it.
- TcpServers.TcpServer.EpollThread: the system calls are assumed to succeed, a notification is recorded once for all listeners, and the race between stop() and the thread is only a choice of the batch after which it stops.
- The protocol name of a WebSocket client (`__getProtocolFromHeader__`, `__replaceAll__`, `addProtocols`), which no lifecycle property depends on.
- Comment storage and printing, and the place of errors inside a token (`extra_`), which only serves messages.
- `OurReader` and the stream writers, which nearly repeat the classes that are modelled.
- Ownership in `CZString` and in `Value` copies, swaps and destructors: keys and values are values here.
- Conversions between value types (`asInt`, `asString`, ...), iterators and member removal, which are easy.
- The UNIX-domain and UDP servers, the HTTP server, the factory, the logger, the signal handling and the copying of configuration fields: duplicates or input and output.
