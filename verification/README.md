# Verification of the Bacteria Framework's pure logic

This project models, in Dafny, the parts of the Bacteria Framework that are logic of their own rather than
bindings to a library, and proves what they promise:

- the JSON encoder and decoder of `src/luasubmodules/json.lua`;
- the tokenizer, the key/value wire form and the address joins of `libbacteria/net.c`, with the Lua glue of
  `libbacteria/lua/libnet.c` and the C++ wrapper in `src/net/utils.cpp`;
- the UDP peer table of `src/async_serv.cpp`, the client table of `src/client/main.cpp`, and the text protocol
  between them;
- the PEM extraction of `libbacteria/encdec/verify/rsa_ed25519.c` and the Base64 length arithmetic of
  `libbacteria/encdec/verify/base64.c`.

`dafny verify dfyconfig.toml` checks all of it.

## How it is built

A text is a `string` whose characters stand for bytes; positions count from 0. Wherever the original runs a loop
or changes an object, the model has a method with that loop, or a class with those fields, and the method
is proved equal to a specification function; the theorems are about these functions. What is only an
expression in the original is a function.

| file | content |
|---|---|
| `Text`, `CStrings` | shared text helpers, decimal numbers, C strings and growing buffers |
| `Utf8` | `codepoint_to_utf8` against the decoder of RFC 3629 section 3 |
| `JsonValue` | Lua values and tables, and what array and object literals denote |
| `JsonSyntax`, `JsonSpans` | the accepted grammar as syntax trees, with text and meaning; the same by position |
| `JsonParser`, `JsonDecoder` | the decoder as functions; the decoder with its loops, proved equal |
| `JsonAgreement` | decoder and grammar agree; white space does not matter |
| `JsonStrings` | surrogate pairs and the escapes that are refused |
| `JsonErrors` | exactly which texts fail, and with which error |
| `JsonRfc`, `JsonOutput` | exactly which texts of RFC 8259 are accepted; what is printed is such a text |
| `JsonPrinter` | the printed texts, and the round trip |
| `JsonEncoder`, `JsonCycles` | the encoder on a table heap with its shared stack; unfolding and cycles |
| `Splitter`, `KeyValue`, `Addresses` | `libbacteria/net.c` |
| `PeerTable`, `PeerClient` | server, client, and the texts between them |
| `Base64`, `Pem` | Base64, its lengths, and PEM extraction |

The C library's `tonumber` and `%.14g` conversions are parameters: the grammar theorems hold for every
`tonumber`. The round trip asks only that the two conversions agree on the numbers printed, which
`IntegersFaithful` shows for integers of up to 14 digits from what C promises about decimal integers.
Clock readings, received datagrams and the answers of peers are parameters too. The order of `pairs` and
`lua_next`, and the border that `#` returns, are left open: the theorems hold for every order and every border.

## Where the code does not do what it seems to promise

Each of these is a lemma with a concrete input (the first named) beside an exact condition for all inputs.

- `json.decode` refuses the RFC 8259 text `"\uDBFF\uE000"` (`RfcTextRefused`). A text of RFC 8259 is accepted
  exactly when no escaped pair in any of its strings is `OutOfRange` (`RfcTextAccepted`).
- `json.decode` accepts a comma before a closing bracket (`TrailingCommaAccepted`). The texts it accepts are exactly
  those of the grammar in `JsonSyntax` (`DecodeAgrees`).
- `json.encode` accepts a table with keys 1, 3 and 5 and prints its first element only (`SparseArrayAccepted`): the
  length check is against some border. An accepted array is printed in full exactly when its keys are 1 to n
  (`AcceptedArrayComplete`).
- `lua_unpackData` does not give back every table that `lua_packData` packs: the empty table packs to nil
  (`EmptyTableLost`), of more than 120 entries only 120 are read (`LongTableLost`), a value that holds the first
  splitter makes the text unreadable (`SplitterInValueRefused`), and one that holds the second is refused or cut
  (`SecondSplitterLost`). The table comes back exactly if it has between one and 120 entries and no key and no value
  holds a splitter (`PackRoundTrip`, `LuaRoundTrip`).
- The refresh of a known sender reaches a copy, so a sender that keeps sending still times out
  (`ActiveSenderExpires`, `RefreshOnlyByInsertion`).
- Body extraction without decoding reports a size that counts the stripped white space (`BodySizeWrong`). The size
  is right exactly if there is none (`BodySizeExact`).
- Body extraction with decoding looks for the padding in front of its buffer if there is nothing between the marker
  lines (`EmptyKey`, `EmptyPem`) or a single equals sign (`EqualsKey`). It stays inside exactly if the region
  holds, white space aside, anything else (`DecodingReadsInside`, `ReadsInsideExactly`).
- `Base64Decode` keeps the length of the decoded bytes, and asks for bytes, in an `int`. A text of 2 GiB that decodes
  fails its assertion (`LongTextFails`). It gets all bytes and the assertion holds exactly for texts shorter than
  2^31 (`AssertionExactly`). The length itself survives exactly if it is below 2^31; otherwise it is negative
  for texts shorter than 2^32, and the buffer cannot even be allocated (`DecodeLenExactly`).

Two places follow the evident intention instead of the code: `packData` closes its text with a NUL at the end of
the data, where the code writes one byte further (`libbacteria/net.c:91-93`), and the result arrays of
`unpackData` have their intended sizes (`libbacteria/net.c:119-131`), the ignore pair being the
one-byte text 0x03.

## Model

| member | source | states |
|---|---|---|
| JsonAgreement.DecodeAgrees | src/luasubmodules/json.lua:375-385 | `json.decode` succeeds with value v exactly on the texts that have a derivation meaning v, for every text, every v and every `tonumber` |
| JsonAgreement.DecodeComplete | src/luasubmodules/json.lua:218-385 | the text of any well-formed derivation decodes to what the derivation means: last key wins, null removes, one trailing comma allowed |
| JsonAgreement.DecodeSound | src/luasubmodules/json.lua:218-385 | every text that decodes has a derivation, constructed by the proof |
| JsonAgreement.MeaningUnique | src/luasubmodules/json.lua:365-385 | a text has at most one meaning in the grammar |
| JsonAgreement.WhiteSpaceIrrelevant | src/luasubmodules/json.lua:280-341 | texts that differ only in space, tab, CR and LF around values and structural characters decode alike |
| JsonErrors.DecodeFailsExactly | src/luasubmodules/json.lua:375-385 | `json.decode` fails with an error exactly on the texts that break off with it after a fine beginning, or that go on behind a whole value; for every text, every error and every `tonumber` |
| JsonErrors.BrokenFails | src/luasubmodules/json.lua:344-372 | wherever a value breaks off, however deep in arrays and objects, `parse` fails with the error of the first thing wrong |
| JsonErrors.FailureBroken | src/luasubmodules/json.lua:344-372 | whatever `parse` refuses breaks off in one of these ways; the proof constructs the broken derivation |
| JsonErrors.StringErrors | src/luasubmodules/json.lua:218-256 | a concrete text for each error of a string literal but the invalid code point |
| JsonErrors.StartErrors | src/luasubmodules/json.lua:365-372 | concrete texts that start with no value |
| JsonErrors.NumberError | src/luasubmodules/json.lua:259-267 | a token that starts like a number and is none gives the invalid number error |
| JsonErrors.WordError | src/luasubmodules/json.lua:270-277 | a concrete word that is no literal |
| JsonErrors.ArrayErrors | src/luasubmodules/json.lua:280-304 | concrete arrays without bracket or comma behind an element |
| JsonErrors.ObjectErrors | src/luasubmodules/json.lua:307-341 | a concrete object without key, and one without colon |
| JsonErrors.MemberError | src/luasubmodules/json.lua:307-341 | a concrete object without brace or comma behind a member |
| JsonErrors.GarbageError | src/luasubmodules/json.lua:375-385 | a concrete text with something behind its value |
| JsonSyntax.CharacterSets | src/luasubmodules/json.lua:153-155 | the white space, the delimiters, the short escapes, the characters that open a number, and the hex digits, each by its letters |
| JsonSyntax.ShortEscapes | src/luasubmodules/json.lua:33-46 | the byte of each of the eight short escapes |
| JsonSyntax.HexLetters | src/luasubmodules/json.lua:206-208 | the values of the sixteen hex digits in either case |
| JsonSyntax.SpelledHex | src/luasubmodules/json.lua:206-208 | four hex digits in any mix of cases spell the number of their values |
| JsonSyntax.LiteralWords | src/luasubmodules/json.lua:156-162 | the three words and their values |
| JsonSyntax.ItemSpellings | src/luasubmodules/json.lua:218-256 | how each kind of character is spelled, and that all but controls, quote and backslash may stand for themselves |
| JsonAgreement.ParseComplete | src/luasubmodules/json.lua:365-372 | in any context that delimits it, a derivation is parsed to its meaning and the end position is exact |
| JsonAgreement.ParseSound | src/luasubmodules/json.lua:365-372 | whatever `parse` accepts has a derivation spanning exactly the consumed text |
| JsonAgreement.CharsComplete | src/luasubmodules/json.lua:218-256 | every well-formed sequence of raw characters and escapes is read to the bytes it stands for |
| JsonAgreement.CharsSound | src/luasubmodules/json.lua:218-256 | every string literal that is accepted is such a sequence, paired as the pattern match pairs it |
| JsonAgreement.HexLengthOfItem | src/luasubmodules/json.lua:233-238 | the pattern match takes a whole escape or surrogate pair and nothing of what follows |
| JsonParser.NextCharLeast | src/luasubmodules/json.lua:165-172 | `next_char` returns the least position with the wanted character, or the end |
| JsonParser.HexLengthMatches | src/luasubmodules/json.lua:234-236 | what the two patterns match is a high-surrogate escape with another escape, or four hex digits |
| JsonParser.HighHexShape | src/luasubmodules/json.lua:234 | the class pair `[dD][89aAbB]` holds exactly for the values 0xD800 to 0xDBFF |
| JsonParser.Parse | src/luasubmodules/json.lua:365-372 | every success ends strictly after its start and inside the text, so the mutual recursion terminates on every input |
| JsonParser.ParseElements | src/luasubmodules/json.lua:280-304 | the array loop moves forward on every success |
| JsonParser.ParseMembers | src/luasubmodules/json.lua:307-341 | the object loop moves forward on every success |
| JsonParser.ParseChars | src/luasubmodules/json.lua:218-256 | the string loop moves forward on every success |
| JsonDecoder.NextChar | src/luasubmodules/json.lua:165-172 | the scanning loop equals its function |
| JsonDecoder.ParseString | src/luasubmodules/json.lua:218-256 | the loop with its pending run of plain characters equals the character-by-character function, errors included |
| JsonAgreement.NumeralComplete | src/luasubmodules/json.lua:259-267 | wherever a number token stands before a delimiter or the end, `parse` gives the number it means and the end of the token |
| JsonAgreement.LiteralComplete | src/luasubmodules/json.lua:270-277 | likewise for `true`, `false` and `null` |
| JsonDecoder.ParseArray | src/luasubmodules/json.lua:280-304 | the loop equals the recursive specification, errors included |
| JsonDecoder.ParseObject | src/luasubmodules/json.lua:307-341 | the loop equals the recursive specification, errors included |
| JsonDecoder.Parse | src/luasubmodules/json.lua:344-372 | the dispatch equals the specification |
| JsonDecoder.Decode | src/luasubmodules/json.lua:375-385 | the decoder as it runs equals the function that the grammar theorems are about |
| JsonValue.AssignElementsIsTable | src/luasubmodules/json.lua:281-304 | the assignments of the array loop build the table of the element list, nulls left out at their index |
| JsonValue.AssignMembersIsTable | src/luasubmodules/json.lua:308-340 | the assignments of the object loop build the table in which the last member of a name wins and null removes |
| JsonValue.ObjectTableRead | src/luasubmodules/json.lua:332 | reading a key of an object gives the value of the last member of that name |
| Utf8.DecodeOneInverse | src/luasubmodules/json.lua:189-203 | the RFC 3629 decoder reads the encoding of every scalar value back, whatever follows |
| Utf8.Octets | src/luasubmodules/json.lua:189-203 | the octets of every code point, surrogates included, have the lengths and the six-bit digits of RFC 3629 section 3; beyond 0x10FFFF there are none |
| Utf8.EncodeInverse | src/luasubmodules/json.lua:189-203 | whatever the RFC 3629 decoder reads is a scalar value and the encoder writes those octets |
| Utf8.PrefixFree | src/luasubmodules/json.lua:189-203 | no encoding is a prefix of another; the encoding is injective |
| Utf8.DecodeAllInverse | src/luasubmodules/json.lua:189-203 | a concatenation of encodings decodes to exactly the original sequence |
| Utf8.EncodeAllInverse | src/luasubmodules/json.lua:189-203 | every octet string the decoder accepts is such a concatenation |
| JsonStrings.ParseStringUnits | src/luasubmodules/json.lua:206-256 | scalar values spelled as escapes or surrogate pairs, mixed with raw bytes and short escapes, are read to exactly their UTF-8 bytes |
| JsonStrings.EscapedNumber | src/luasubmodules/json.lua:206-238 | the text of one escape, spelled with any mix of the sixteen lower-case and upper-case digits, decodes to the octets of the number it spells |
| JsonStrings.EscapedPair | src/luasubmodules/json.lua:206-238 | the text of two escapes of which the first names a high surrogate decodes to the octets of the number the arithmetic gives, or is refused exactly if that leaves the code space |
| JsonStrings.EscapedShort | src/luasubmodules/json.lua:43-46 | the text of each short escape decodes to its byte |
| JsonStrings.ScalarsDecodeBack | src/luasubmodules/json.lua:189-256 | the bytes of a literal of scalar values decode to those values |
| JsonStrings.PairRange | src/luasubmodules/json.lua:206-215 | the surrogate arithmetic never goes below 0x2400, leaves the code space exactly for the `OutOfRange` pairs, and is in 0x10000 to 0x10FFFF for every proper pair |
| JsonRfc.RfcTextAccepted | src/luasubmodules/json.lua:375-385 | a JSON text by the letter of RFC 8259 is accepted exactly if no escaped pair in any of its strings is out of range, and decodes to what it means when escapes are paired as the decoder pairs them (`PairTree`: a high surrogate with whatever escape follows, so `\uD800\u0041` is one character), for every `tonumber` that reads the standard's numbers |
| JsonRfc.TrailingCommaAccepted | src/luasubmodules/json.lua:280-341 | concrete texts outside the standard that are accepted |
| JsonRfc.TreeFails | src/luasubmodules/json.lua:365-372 | an out-of-range pair anywhere in a value makes `parse` fail with the invalid code point error |
| JsonRfc.RfcNumberIsToken | src/luasubmodules/json.lua:259-267 | a number of RFC 8259 section 6 is dispatched to `parse_number` and not cut by a delimiter |
| JsonRfc.PairTreeWellFormed | src/luasubmodules/json.lua:206-256 | pairing the escapes of a standard derivation gives one the decoder accepts |
| JsonStrings.RfcStringAccepted | src/luasubmodules/json.lua:218-256 | a string literal of RFC 8259 section 7 is accepted exactly if no escaped pair is out of range |
| JsonStrings.PairingFails | src/luasubmodules/json.lua:202-215 | otherwise the error is the invalid code point |
| JsonStrings.RfcTextRefused | src/luasubmodules/json.lua:206-215 | a concrete RFC 8259 text that is refused |
| JsonPrinter.RoundTrip | src/luasubmodules/json.lua:59-136 | decoding an encoded value gives the value back, in whatever order `pairs` listed each object |
| JsonPrinter.RoundTripInContext | src/luasubmodules/json.lua:365-372 | inside prefix and suffix, `parse` returns the value and the exact end whenever the suffix is empty or starts with a delimiter |
| JsonPrinter.EncodingInjective | src/luasubmodules/json.lua:134-136 | different values never share an encoding |
| JsonPrinter.CharItemsText | src/luasubmodules/json.lua:33-51 | the escaped text is a well-formed literal that reads back as the original bytes |
| JsonPrinter.PlainText | src/luasubmodules/json.lua:101-103 | text of characters from 32 up without quote and backslash is printed as it is, between quotes |
| JsonPrinter.EscapedText | src/luasubmodules/json.lua:33-51 | the exact text of every character that is escaped: seven short escapes, and `\u00` with two lower-case digits for the other controls |
| JsonPrinter.EscapeCharsAppend | src/luasubmodules/json.lua:101-103 | strings are escaped character by character |
| JsonPrinter.TreeOfText | src/luasubmodules/json.lua:59-131 | every printed text is the text of a derivation |
| JsonPrinter.TreeOfMeaning | src/luasubmodules/json.lua:59-131 | ... which is well-formed and means the printed value, for every order of the keys |
| JsonPrinter.IntegersFaithful | src/luasubmodules/json.lua:106-112 | integers of up to 14 digits print as number tokens that read back exactly, whatever is read of longer ones |
| JsonPrinter.IntegerRoundTrip | src/luasubmodules/json.lua:59-136 | the round trip for every value whose numbers are such integers |
| JsonPrinter.CIntegersExist | src/luasubmodules/json.lua:106-112 | conversions with the properties assumed of C exist |
| JsonOutput.EncodedIsRfc | src/luasubmodules/json.lua:134-136 | whatever is encoded without an error is a JSON text by the letter of RFC 8259, and none that the decoder refuses, as long as its numbers are printed as the standard writes them |
| JsonOutput.IntegersRfc | src/luasubmodules/json.lua:106-112 | integers of up to 14 digits are |
| JsonEncoder.Ipairs | src/luasubmodules/json.lua:81 | `ipairs` yields the values from the index on up to the first nil |
| JsonEncoder.Encoder.constructor | src/luasubmodules/json.lua:134-136 | encoding starts with an empty stack |
| JsonEncoder.Encoder.EncodeValue | src/luasubmodules/json.lua:124-131 | equals its function of the value and the stack at entry; a success restores the stack |
| JsonEncoder.Encoder.EncodeTableAt | src/luasubmodules/json.lua:59-98 | the loops that fill `res` and mutate the shared stack equal the function; a success restores the stack |
| JsonEncoder.EncodeTop | src/luasubmodules/json.lua:134-136 | `json.encode` equals the function on the empty stack |
| JsonCycles.EncodeSucceedsExactly | src/luasubmodules/json.lua:59-136 | on every finite heap, shared or cyclic, encoding succeeds exactly if every table reached passes the checks and visits printable values only, and no cycle is reached; "circular reference" is reported only if there is one |
| JsonCycles.CircularExactly | src/luasubmodules/json.lua:63-66 | if all that is reached is accepted, the error is raised exactly if a cycle is reachable from the value, and otherwise encoding succeeds |
| JsonCycles.FailureReason | src/luasubmodules/json.lua:63-131 | every failure has a chain of visited tables, constructed by the proof, that ends on the stack or repeats for a circular reference, and at a table that is not accepted for any other error |
| JsonCycles.SuccessIsAcyclic | src/luasubmodules/json.lua:63-98 | a success means that every chain from the value meets accepted tables only, none twice and none of the stack |
| JsonCycles.TableOutcome | src/luasubmodules/json.lua:68-97 | a table off the stack is encoded exactly if it passes its checks and every value it visits is encoded |
| JsonCycles.LeafExactly | src/luasubmodules/json.lua:106-131 | the text or the error of every value that is no table, and the error for a table on the stack |
| JsonCycles.ArrayChecks | src/luasubmodules/json.lua:68-79 | a key that is no number gives the mixed keys error, otherwise a count that is not the border the sparse array error |
| JsonCycles.ArrayExactly | src/luasubmodules/json.lua:80-85 | an array that passes prints `[`, its texts with commas, `]`, or fails as the first element that fails |
| JsonCycles.ObjectExactly | src/luasubmodules/json.lua:87-97 | an object prints its members in the order of `pairs`, or fails at the first key that is no string or value that fails, whichever comes first |
| JsonCycles.ProperIsChecked | src/luasubmodules/json.lua:68-97 | a table with keys 1 to n, or with string keys only, passes the checks for every border, and the visited values are the stored ones |
| JsonCycles.EncodeUnfolds | src/luasubmodules/json.lua:59-131 | on any heap, a success is the text of a finite unfolding of the value |
| JsonCycles.UnfoldingRepresents | src/luasubmodules/json.lua:59-131 | an unfolding represents its table value without sharing |
| JsonCycles.EncodeDecode | src/luasubmodules/json.lua:134-136 | whatever is encoded without an error decodes to its unfolded value |
| JsonCycles.AcceptedArrayComplete | src/luasubmodules/json.lua:68-85 | an array that passes the checks is printed in full exactly if its keys are 1 to n |
| JsonCycles.SparseArrayAccepted | src/luasubmodules/json.lua:77-83 | a concrete table that passes the checks and loses elements |
| Splitter.SplitMsg | libbacteria/net.c:10-47 | the moving-pointer loop returns the first 120 tokens of the specification, each shorter than the buffer |
| Splitter.TokensStep | libbacteria/net.c:24-42 | one pass with its fallback to the carriage return takes the next token of the specification |
| Splitter.SplitCapped | libbacteria/net.c:15-44 | the result is all tokens, or the first 120 |
| Splitter.FieldsDecompose | libbacteria/net.c:10-47 | the fields with their separators and the tail rebuild the text, and none holds a separator |
| Splitter.FieldsUnique | libbacteria/net.c:10-47 | that decomposition is the only one |
| Splitter.SplitRebuilds | libbacteria/net.c:10-47 | the tokens with their separators rebuild a prefix of the text; below the cap no separator is left after it |
| Splitter.SplitTerminated | libbacteria/net.c:10-47 | a text of terminated separator-free fields splits into those fields, up to 120 |
| Splitter.SplitVector | src/net/utils.cpp:5-16 | the vector holds the same tokens in order |
| KeyValue.PackData | libbacteria/net.c:60-95 | the growing buffer ends up holding every record up to the shorter list, then a NUL; NULL exactly for an empty list |
| KeyValue.WriteRecord | libbacteria/net.c:81-87 | the writes at the running offset leave what precedes and add key, splitter, value, splitter |
| KeyValue.UnpackData | libbacteria/net.c:99-150 | counting, splitting and the backward loop equal the specification |
| KeyValue.UnpairMeaning | libbacteria/net.c:122-146 | key, splitter and value make up the record and the key is free of the splitter; otherwise the ignore pair |
| KeyValue.UnpairedAt | libbacteria/net.c:122-146 | the flat result runs backwards: of n records, record k stands at 2(n - 1 - k), key before value |
| KeyValue.UnpackAccepts | libbacteria/net.c:101-115 | any text is accepted exactly if the two splitters stand at equally many positions |
| KeyValue.EarliestWins | libbacteria/lua/libnet.c:239-245 | loading the reversed pairs into a table binds each key to its earliest record |
| KeyValue.LuaUnpackData | libbacteria/lua/libnet.c:221-248 | the table loop equals loading all pairs in order; an error exactly if unpacking fails |
| KeyValue.LuaPackData | libbacteria/lua/libnet.c:249-312 | the text is the packing of the fields with text values in the order of the walk |
| KeyValue.PackedFields | libbacteria/lua/libnet.c:249-312 | each field with a text value adds `key=value;` in the order of the walk, any other adds nothing |
| KeyValue.PackedOrNil | libbacteria/lua/libnet.c:249-312 | the result is nil exactly if no field has a text value |
| KeyValue.PackedCounts | libbacteria/net.c:104-114 | a packed list holds each splitter once per pair, plus as often as the keys and values hold it |
| KeyValue.UnpackPacked | libbacteria/net.c:60-150 | any packed list is refused exactly if the two splitters are not equally frequent inside its keys and values; where keys hold none and values hold at most the first, that is exactly if some value does, and otherwise the first 120 pairs are loaded |
| KeyValue.PackRoundTrip | libbacteria/net.c:60-150 | packing any table in any order and unpacking the result gives the table back exactly if the splitters differ, it has between one and 120 entries, and no key and no value holds a splitter, for every second splitter but the ignore byte |
| KeyValue.LuaRoundTrip | libbacteria/lua/libnet.c:221-312 | one Lua call after the other, through the loops of both, on the fields of any table of texts gives that table back exactly if it has between one and 120 entries and no key and no value holds `=` or `;` |
| KeyValue.EmptyTableLost | libbacteria/net.c:66-67 | there is no text for the empty table |
| KeyValue.LongTableLost | libbacteria/net.c:99-150 | concrete tables with more than 120 entries that do not come back |
| KeyValue.ComesBackSeparable | libbacteria/net.c:99-150 | if a table comes back, no key and no value of it holds the second splitter, and no key the first |
| KeyValue.SplitterInValueRefused | libbacteria/net.c:104-114 | a concrete pair whose packed text is refused |
| KeyValue.SecondSplitterLost | libbacteria/net.c:104-150 | two concrete pairs whose value holds the second splitter: one refused, one cut |
| KeyValue.IgnoreByteSplits | libbacteria/net.c:122-130 | a concrete table that comes back with the ignore byte as second splitter although its texts hold that byte |
| Addresses.JoinData | libbacteria/net.c:152-167 | the buffer holds both texts, each followed by the separator, then a NUL |
| Addresses.JoinAddresses | libbacteria/net.c:169-195 | the in-place loop leaves the separator-interleaved arguments and a NUL |
| Addresses.LuaJoinAddresses | libbacteria/lua/libnet.c:165-187 | the pairwise fold gives the same text as one variadic call |
| Addresses.JoinedText | libbacteria/net.c:169-195 | one address is itself, and each further one adds `;` and its text |
| Addresses.SplitJoinedData | libbacteria/net.c:152-167 | splitting joined data gives both texts back exactly if neither holds the separator |
| Addresses.SplitJoinedAddresses | libbacteria/net.c:169-195 | splitting joined addresses with one more separator gives them back exactly if there are at most 120 and none holds the separator |
| PeerTable.Server.constructor | src/async_serv.cpp:44 | the table starts empty |
| PeerTable.Server.DelByPing | src/async_serv.cpp:163-178 | the erase-and-restart loop terminates and equals one filter by age |
| PeerTable.Server.OnDatagram | src/async_serv.cpp:149-202 | one datagram changes the table as specified and sends the listing of the live users before insertion and the echo |
| PeerTable.AliveAppend | src/async_serv.cpp:163-178 | the filter distributes over concatenation, so it keeps the order of the users |
| PeerTable.EraseStale | src/async_serv.cpp:167-175 | erasing one stale user leaves the filtered table as it is |
| PeerTable.AliveMeaning | src/async_serv.cpp:163-178 | the filter keeps exactly the users that are not stale, and keeps them distinct |
| PeerTable.AliveOne | src/async_serv.cpp:169 | a user stays exactly up to an age of 120 |
| PeerTable.StepExactly | src/async_serv.cpp:159-198 | a live sender leaves the live users as they are; an unknown one is added behind them, and all of these are dropped exactly if there are eleven or more |
| PeerTable.TwelfthFlushes | src/async_serv.cpp:195 | a run reaches eleven users, and the twelfth replaces them all |
| PeerTable.ServerTexts | src/async_serv.cpp:153-189 | the listing entry `a.b.c.d:port;` and the echo `[a.b.c.d:port]: text` written out |
| PeerTable.StepKeepsInv | src/async_serv.cpp:159-198 | a datagram keeps addresses distinct and the size at most 11, leaves the sender in exactly once and adds nobody else; the live users stay in front in order, and only an unknown sender that finds more than ten of them replaces them all |
| PeerTable.EveryRun | src/async_serv.cpp:159-198 | over every run of datagrams: no two entries share an address, at most 11 entries, the latest sender exactly once, every entry inserted by its own datagram, nothing older than the timeout but the latest sender's entry |
| PeerTable.RefreshOnlyByInsertion | src/async_serv.cpp:182-187 | the sender's entry carries the time of this datagram exactly if no live entry of the sender carries another |
| PeerTable.ActiveSenderExpires | src/async_serv.cpp:169-187 | a concrete run in which an active sender is missing from its listing |
| PeerClient.ListingReachesClient | src/client/main.cpp:176-190 | in every reachable server state the listing has at most 242 bytes, fits the 1024-byte read, stays below the token cap, and is read back to exactly the live users in order under distinct keys |
| PeerClient.ListingParses | src/client/main.cpp:181-193 | a listing of up to 120 users is read back to those users in order |
| PeerClient.EchoParses | src/client/main.cpp:138-152 | the line `[ip:port]: text` gives ip and port back for any text |
| PeerClient.EntryCut | src/client/main.cpp:185-193 | an entry is cut at its first colon and the port taken modulo 2^16; without a colon both parts are the whole text |
| PeerClient.AtoiText | src/client/main.cpp:193 | `atoi` reads blanks, a sign and digits up to the first other character |
| PeerClient.PeerInjective | src/client/main.cpp:35 | two socket addresses with the same printed ip and port are equal |
| PeerClient.ListingLength | src/async_serv.cpp:189 | at most 22 bytes per listed user |
| PeerClient.RoundOnListing | src/client/main.cpp:176-220 | the listing of any reachable server state, taken through one round of the client, binds exactly the live users that answered before the first failing send, each to its answer's time, then the last sender if no send failed; all else stays as before |
| PeerClient.RoundMeaning | src/client/main.cpp:185-220 | the same for any distinct peers |
| PeerClient.AnsweredMeaning | src/client/main.cpp:185-209 | after the loop a peer is bound to the time of its last answer, or as before if it gave none |
| PeerClient.Client.constructor | src/client/main.cpp:117-126 | the client table starts empty |
| PeerClient.Client.GetUsers | src/client/main.cpp:176-220 | binds every listed peer that answers; the first failing send ends the round, and only a round without one goes on to bind the sender of the final message |
| PeerClient.Client.DelByPing | src/client/main.cpp:162-175 | the restart loop removes exactly the stale keys and leaves the other bindings, in any iteration order |
| PeerClient.FreshPeersMeaning | src/client/main.cpp:167-168 | exactly the peers whose last ping is at most `s` old stay, each with its time |
| Base64.DecodeInverse | libbacteria/encdec/verify/base64.c:3-45 | decoding undoes encoding for every byte string |
| Base64.DigitLetter | libbacteria/encdec/verify/base64.c:3-45 | the alphabet of RFC 4648 by its letters |
| Base64.FullGroup | libbacteria/encdec/verify/base64.c:25-45 | three bytes are one number, written in its four digits of base 64 |
| Base64.LastGroup | libbacteria/encdec/verify/base64.c:25-45 | a rest of one or two bytes is written like a group that ends in zeros, with equals signs at its end |
| Base64.Conversions | libbacteria/encdec/verify/base64.c:7-18 | the conversions to `size_t` and `int` by their moduli and ranges |
| Base64.LengthExact | libbacteria/encdec/verify/base64.c:47-58 | the computed length is the decoded length of a decodable text exactly if three times the text length fits into `size_t` |
| Base64.ReadsInsideExactly | libbacteria/encdec/verify/base64.c:51-55 | the padding is looked for inside the text for every text but the empty one and a single equals sign |
| Base64.EncodedLengthExact | libbacteria/encdec/verify/base64.c:47-58 | ... in particular it is the length of any encoded nonempty byte string, in all three residue classes |
| Base64.DecodeLenExactly | libbacteria/encdec/verify/base64.c:7 | the `int` holds the decoded length of a decodable text exactly if that is below 2^31; for texts shorter than 2^32 it is negative otherwise |
| Base64.AssertionExactly | libbacteria/encdec/verify/base64.c:7-19 | all bytes arrive and the assertion holds exactly for texts shorter than 2^31; between 2^31 and 2^32 the assertion is false, where the allocation before it lets it be reached |
| Base64.LongTextFails | libbacteria/encdec/verify/base64.c:7-19 | a concrete text that decodes, has room in its buffer, and fails the assertion |
| Base64.Base64Decode | libbacteria/encdec/verify/base64.c:3-23 | on a nonempty decodable text shorter than 2^31 it returns the decoded bytes, the length is the computed one, and the assertion holds |
| Pem.CopyRegion | libbacteria/encdec/verify/rsa_ed25519.c:15-26 | the two-cursor loop with its 32-bit counter stepped back and forth terminates and copies the region, without newlines and spaces in body mode |
| Pem.StripChars | libbacteria/encdec/verify/rsa_ed25519.c:19 | exactly newlines and spaces are taken away |
| Pem.StripSpaced | libbacteria/encdec/verify/rsa_ed25519.c:18-25 | a text with newlines and spaces put in anywhere is stripped to that text, in its order |
| Pem.GetStrFromLineToLine | libbacteria/encdec/verify/rsa_ed25519.c:4-39 | result and size in both modes, with and without decoding |
| Pem.BodySizeExact | libbacteria/encdec/verify/rsa_ed25519.c:32-37 | without decoding the reported size is the size of the text exactly if the region holds no white space |
| Pem.BodySizeWrong | libbacteria/encdec/verify/rsa_ed25519.c:32-37 | a concrete text whose reported size is too large |
| Pem.BodyDecodes | libbacteria/encdec/verify/rsa_ed25519.c:9-31 | a region that holds the encoding of a byte string apart from white space decodes to it; the demands of decoding are met exactly if it is not empty and its encoding is shorter than 2^31 |
| Pem.DecodingReadsInside | libbacteria/encdec/verify/rsa_ed25519.c:28-31 | for every region, decodable or not, the padding is looked for inside the extracted text exactly if the region, white space aside, is neither empty nor a single equals sign |
| Pem.EmptyPem | libbacteria/encdec/verify/rsa_ed25519.c:15-31 | nothing but white space between the marker lines leaves the empty text, whose padding is looked for in front of it |
| Pem.EmptyKey | libbacteria/encdec/verify/rsa_ed25519.c:15-31 | a concrete text of this kind |
| Pem.EqualsKey | libbacteria/encdec/verify/rsa_ed25519.c:15-31 | a concrete text that leaves a single equals sign, with the same outcome |
| Pem.LabelIsName | libbacteria/encdec/rsa_ed25519.h:67-68 | the labels of RFC 7468 section 2, single hyphens included, are among those the marker lemmas admit |
| Pem.PemTextIs | libbacteria/encdec/rsa_ed25519.h:67-68 | the markers and the whole text written out |
| Pem.MarkersApart | libbacteria/encdec/verify/rsa_ed25519.c:7-8 | along a marker and the newline after it no marker with another word begins, not even across the hyphens |
| Pem.PemRegion | libbacteria/encdec/verify/rsa_ed25519.c:7-15 | in a text of RFC 7468 section 2 the region in body mode is exactly the body, whatever precedes the block but a marker of the same label |
| Pem.PemRoundTrip | libbacteria/encdec/verify/rsa_ed25519.c:4-39 | for every byte string and every way of putting newlines and spaces into its Base64 text, the extracted text decodes to the byte string; decoding it in the call is possible exactly for a nonempty byte string whose encoding is shorter than 2^31 |
| Pem.ExtractPem | libbacteria/encdec/verify/rsa_ed25519.c:4-39 | running the function on such a text, given letter by letter, returns the nonempty byte string and its length |
| Pem.PemWhole | libbacteria/encdec/verify/rsa_ed25519.c:12-14 | whole mode extracts exactly the block from marker to marker, whatever precedes it but a marker of the same label |
| Pem.TwoBlocksExtracted | libbacteria/encdec/rsa_ed25519.h:66-68 | from a text with two blocks of different labels each is extracted by its label, in both modes |
| Pem.InitKeys | libbacteria/encdec/rsa_ed25519.h:65-79 | the two calls cut exactly the private and the public block, both written out, out of one text |

## Left out

- Sockets, epoll, timeouts, threads and process control: input and output only; a datagram is a parameter of a step.
- OpenSSL, libgd, GMP, curl, jansson, iniparser and the Lua C API: foreign code. The Base64 codec is the one of RFC 4648.
- AES, X25519, RSA and Ed25519 wrappers, hashing, captchas, drawing: thin wrappers or randomness.
- Memory bookkeeping, `free_splitted` and allocation failures: buffers have their intended sizes.
- Fixed line buffers of the server and the client (`char tmp[256]` in `src/async_serv.cpp:153`): the echo is modelled at its full length.
- Line and column numbers in `decode_error`: the error itself is modelled, its position is not.
- Number texts beyond integers: what `%.14g` prints and `tonumber` reads of other numbers is a parameter of the theorems.
- PackRoundTrip: leaves out the ignore byte 0x03 as second splitter, where the condition is not necessary (`IgnoreByteSplits`); neither Lua function uses it unless it is passed one.
- LuaPackData: does not model tables as values, nor number keys, because for those the walk over the table goes wrong in the Lua stack itself (`libbacteria/lua/libnet.c:292-295` pops the nil it pushed, and line 275 converts the key that `lua_next` still needs).
- `inet_addr` and `inet_ntoa` as library functions: the printed form is modelled, reading it back as a number is not.
- Integer overflow in `atoi`: the model reads any number of digits.
- A region of 4 GiB or more in `GetStrFromLineToLine`, where the 32-bit counter would wrap around for good.
- `BIO_read` as a library function: it is taken to deliver at most the requested bytes, and none for a request that is not positive.
