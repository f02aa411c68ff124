# RapidJSON and the RTMP ingest path, modelled and proved in Dafny

The repository is an RTMP ingest server with a vendored copy of RapidJSON.  This project models its most involved parts
and proves what they promise, over all inputs and all runs:

- **The JSON text engine.**  `Grammar.dfy` gives the recursive-descent parser as functions of the text, the position and
  the handler's log; `Pushdown.dfy` the table-driven parser and the proof that the two agree; `Reader.dfy` the reader
  object with the loops and registers of both.  `Dom.dfy` holds trees, their events and the stack that rebuilds them,
  `JsonText.dfy` says by positions what RFC 7159 makes of a text, and `Lexemes.dfy`, `Accepted.dfy` and `Conforms.dfy`
  prove that exactly that is accepted, with the events of its tree.  `Writer.dfy` and `WriterMethods.dfy` are the two
  printers, `Layout.dfy` what they put where, `RoundTrip.dfy` reading back what was printed, `Stopping.dfy` what a
  handler that stops the parser changes, `Insitu.dfy` and `InsituReader.dfy` decoding in place, of strings and of whole
  documents, `Unicode.dfy` the UTF-8 and UTF-16 codecs.
- **Schema validation and filtering.**  `Schema.dfy` says when a tree satisfies a compiled schema, `Validator.dfy` is
  the event-driven validator, `SchemaRun.dfy` proves that they agree, `SchemaRequired.dfy` where the code and the draft
  part, `ValidatorMethods.dfy` is the validator object, `ValidatorPipeline.dfy` the program of reader and validator.
  `FilterKey.dfy` is the key filter, `FilterPipeline.dfy` the program of reader, filter and writer.
- **JSON Pointer.**  `Pointer.dfy` is the text of pointers in both forms, `PointerParser.dfy` the parser with its token
  array and name buffer, `PointerText.dfy` what RFC 6901 makes of the text; `PointerTree.dfy` is Create, Get, Set and
  Erase, `PointerEdits.dfy` the trees they make.
- **Parsing by parts.**  `HandOff.dfy` is the two-thread hand-off as interleaved critical sections.
- **The pool allocator.**  `Allocator.dfy` is the arithmetic of chunks and blocks with the wrap-around of `size_t`,
  `AllocatorMethods.dfy` the allocator over real bytes.
- **The media path.**  `Nalu.dfy` rewrites NAL units in place, `AudioConfig.dfy` reads AAC sequence headers,
  `SerialNumber.dfy` is RFC 1982, `Publish.dfy` the path from messages to the streamer, `PublishRuns.dfy` what a whole
  run publishes.

`Bytes.dfy`, `Characters.dfy`, `Sax.dfy` and `Wrappers.dfy` hold what several of these share.  `dafny verify
dfyconfig.toml` checks everything.

Texts are sequences of bytes, read as if a NUL followed, and end at the first NUL.  Events are collected in a log; a
handler is any function from the log to its next answer.  A method of a class is proved against a function of the same
module (or of the module the class's file imports), and the properties are proved about that function.  Where a
property of the code fails, a lemma gives the input, and another says exactly when it holds.  Where code and
documentation differ the model follows the code: a `required` name whose schema has a non-empty string default is not
required, an empty tuple of `items` is no tuple, a pointer in a fragment is split at slashes before it is
percent-decoded, in JSON strings bytes above 0x7F stand as they are and of lone surrogate escapes the trailing ones are
taken and the leading ones refused, and `replace_nalu_start_code_from_mp4_to_ts` is always called with 4, not with the
length that the sequence header announced.

What the environment decides is a parameter: the handler's answers, whether the base allocator has memory, the answers
of the ingest library, what a message's bytes parse to (in `Publish.dfy`), and whether converting a floating-point
number reports an overflow.

## Model

| member | source | states |
|---|---|---|
| Pushdown.IterativeIsRecursive | rapidjson/include/rapidjson/reader.h:2176-2208 | The table-driven pushdown parser and the recursive-descent parser return the same outcome and have sent the same events, element and member counts and the prefix before a rejection included, for every text, every combination of the comment, trailing-comma and stop-when-done flags and every handler, also one that stops |
| Conforms.ParsesExactlyJson | rapidjson/include/rapidjson/reader.h:557-588 | With a handler that never stops it, each of the two parsers accepts exactly the texts that are JSON by sections 2 to 7 of RFC 7159, written out by positions with every character, digit and escape as a literal and without the parser's functions (comments and trailing commas where the flags allow them), and the events are those of the tree that the text spells, up to the sign of a zero |
| Lexemes.StringExactly | rapidjson/include/rapidjson/reader.h:987-1054 | A string body decodes to a text if and only if it spells it by section 7 of RFC 7159: sixteen digits in either case, eight two-character escapes, surrogate pairs, nothing below 0x20 |
| Lexemes.HexSpells | rapidjson/include/rapidjson/reader.h:904-923 | Four digits have a value exactly if each is in the table of lower-case or of upper-case digits, and it is the number they write |
| Lexemes.EscapeTable | rapidjson/include/rapidjson/reader.h:991-1030 | What stands behind a backslash is an escape exactly if the table of section 7 of RFC 7159 has it, and stands for the byte given there |
| Lexemes.NumberTaken | rapidjson/include/rapidjson/reader.h:1454-1733 | A text that is a number by section 6 of RFC 7159, with no digit left out of the token, is accepted to its end with its value |
| Lexemes.NumberSpells | rapidjson/include/rapidjson/reader.h:1454-1733 | And whatever token is accepted is such a number |
| Pushdown.SimulateValue | rapidjson/include/rapidjson/reader.h:1995-2144 | From every state in which a value may stand, running the machine over the value is ParseValue followed by the machine in the state that the value leaves; by induction on the remaining input |
| Pushdown.SimulateMembers | rapidjson/include/rapidjson/reader.h:738-803 | The machine's delimiter states between members do what the loop of ParseObject does, with the count of its frame |
| Pushdown.SimulateElements | rapidjson/include/rapidjson/reader.h:806-851 | The same for the loop of ParseArray |
| Pushdown.CloseContainer | rapidjson/include/rapidjson/reader.h:2061-2131 | The pop of a frame sends the count with the last value added, and refuses a trailing comma unless the flag allows it |
| Reader.GenericReader.Parse | rapidjson/include/rapidjson/reader.h:557-588 | Parse as it runs ends in the outcome of the grammar: accepted or not, the position, and the handler's events |
| Reader.GenericReader.IterativeParse | rapidjson/include/rapidjson/reader.h:2176-2208 | IterativeParse as it runs, with its stack of frames, ends in that same outcome, the one of the recursive grammar |
| Reader.GenericReader.Transit | rapidjson/include/rapidjson/reader.h:1995-2144 | One transition moves the stream, the frame stack and the handler as the transition function does |
| Reader.GenericReader.ParseObject | rapidjson/include/rapidjson/reader.h:738-803 | The loop with its member count is the grammar of objects |
| Reader.GenericReader.ParseArray | rapidjson/include/rapidjson/reader.h:806-851 | The loop with its element count is the grammar of arrays |
| Reader.GenericReader.Take | rapidjson/include/rapidjson/stream.h:160-160 | The parser never takes the terminator: every Take has a character other than NUL in front of it |
| Reader.GenericReader.SkipWhitespaceAndComments | rapidjson/include/rapidjson/reader.h:709-735 | Skips white space and, with the flag, both kinds of comment; an unclosed block comment or a lone slash fails |
| Reader.GenericReader.ParseHex4 | rapidjson/include/rapidjson/reader.h:904-923 | The loop yields the value of four hexadecimal digits, or fails at the first other character; which digits have which value is Lexemes.HexSpells |
| Reader.GenericReader.ParseUnicodeEscape | rapidjson/include/rapidjson/reader.h:1016-1031 | A \u escape, surrogate pairs combined, becomes the UTF-8 of its code point; a leading surrogate without a trailing one fails |
| Reader.GenericReader.ParseString | rapidjson/include/rapidjson/reader.h:957-1054 | The copying path sends the decoded body, or fails, exactly as the string grammar says |
| Reader.GenericReader.Accumulate32 | rapidjson/include/rapidjson/reader.h:1467-1497 | The 32-bit accumulator holds the exact value of the digits read, never overflows, and gives up exactly when the next digit would leave 2^31 (with a minus sign) or 2^32 - 1 |
| Reader.GenericReader.Accumulate64 | rapidjson/include/rapidjson/reader.h:1534-1566 | The same for the 64-bit accumulator, 2^63 and 2^64 - 1 |
| Reader.GenericReader.ParseInteger | rapidjson/include/rapidjson/reader.h:1467-1566 | The integer part ends in the narrowest register class that holds its exact value; a double only beyond 64 bits |
| Reader.GenericReader.ParseNumber | rapidjson/include/rapidjson/reader.h:1454-1733 | A number token without fraction or exponent sends its exact value in the narrowest class; all others are handed on whole, as their text |
| Dom.DocumentRebuilds | rapidjson/include/rapidjson/document.h:2433-2473 | The events of any tree push exactly that tree on the handler's stack, members in order, whatever is below it |
| Dom.PairsFlat | rapidjson/include/rapidjson/document.h:2461-2465 | Names and values laid out alternately on the stack are read back as the same members |
| Dom.EventClasses | rapidjson/include/rapidjson/document.h:1894-1900 | A tree sends a number as the first of Int, Uint, Int64 and Uint64 whose range holds it; the reader as the narrowest unsigned class, or signed behind a minus sign |
| Dom.GenericDocument.EndObject | rapidjson/include/rapidjson/document.h:2461-2465 | Pops twice the member count and stores the pairs in the object below, as the step function says |
| Dom.GenericDocument.EndArray | rapidjson/include/rapidjson/document.h:2469-2473 | Pops the element count and stores the elements in the array below |
| Accepted.ValueSends | rapidjson/include/rapidjson/reader.h:1736-1748 | What ParseValue accepts is JSON by RFC 7159 and spells one tree, and what it sends are the events of that tree, up to the sign of a zero |
| Accepted.AcceptedSendsTree | rapidjson/include/rapidjson/document.h:2433-2473 | Every text that either parser accepts, under any flags, is a JSON text and spells a tree with integers of 64 bits; the events are those of that tree, but that -0 comes as Int(0), and the document handler ends with that tree and nothing else on its stack, none of its assertions failing |
| Stopping.DocumentCut | rapidjson/include/rapidjson/reader.h:557-588 | Parsing with any handler is parsing with one that never stops, broken off at the first event for which the handler returns false |
| Accepted.PrintIsNormalForm | rapidjson/include/rapidjson/writer.h:181-257 | Read any accepted text without doubles, print the tree in any style, read that: the same tree again |
| Writer.WriterPrints | rapidjson/include/rapidjson/writer.h:473-498 | From any state of the level stack in which a value may come, the events of a tree append the separator and exactly the printed tree, and count one value, if every string of the tree can be written; if not, and only then, the run is refused, and what it has written is a prefix of that text; for Writer and for PrettyWriter with any indent and array option |
| Writer.WriterMembers | rapidjson/include/rapidjson/writer.h:473-498 | The alternation of commas and colons follows the value count of the level through all members, up to a name or value that is refused |
| Layout.WriterLays | rapidjson/include/rapidjson/prettywriter.h:137-255 | What a new writer has written after the events of a tree: compactly, brackets, commas, colons and tokens with nothing between them; prettily, that text with, in front of each character outside strings, what Gap says from the character before it and the brackets open: a line break and indentCharCount times their number of the indent character behind an opening bracket and a comma and (one less) before a closing bracket, a space behind a colon, nothing else; empty containers and single-line arrays stay together |
| Layout.PrettyIsLaid | rapidjson/include/rapidjson/prettywriter.h:208-255 | The same for the printed tree: the printer's separators and indents by level and count are those of a scan of the compact text that keeps no counts |
| Layout.ByteWritten | rapidjson/include/rapidjson/writer.h:376-440 | Each byte that needs no decoding is written as its two-character escape of section 7 of RFC 7159 if it has one, the slash apart; as \u00 and two upper-case digits if it is another control character; else as it is |
| Layout.CodePointWritten | rapidjson/include/rapidjson/writer.h:399-428 | A code point that ASCII cannot hold is written as one unit, or as the surrogate pair that combines to it, in upper-case digits |
| WriterMethods.TextWriter.Text | rapidjson/include/rapidjson/writer.h:202-221 | A string or name is placed and quoted; one that the target cannot hold is refused, and its text breaks off without the closing quotation mark |
| WriterMethods.TextWriter.Prefix | rapidjson/include/rapidjson/writer.h:473-498 | Writes the separator that the level asks for and counts the value |
| WriterMethods.TextWriter.PrettyPrefix | rapidjson/include/rapidjson/prettywriter.h:208-250 | Writes comma or colon, line break and indent by the parity of the value count and the array option; where that puts line breaks and how deep they indent is Layout.PrettyIsLaid |
| WriterMethods.TextWriter.WriteString | rapidjson/include/rapidjson/writer.h:376-448 | The loop over the code units writes the quoted, escaped text; with the ASCII target it fails at the first malformed sequence, and only there |
| WriterMethods.TextWriter.PutCodePoint | rapidjson/include/rapidjson/writer.h:399-428 | A code point beyond ASCII as one or two \u escapes |
| WriterMethods.TextWriter.EndObject | rapidjson/include/rapidjson/prettywriter.h:137-155 | Closes the level, with a line break and indent exactly when it was not empty |
| WriterMethods.TextWriter.EndArray | rapidjson/include/rapidjson/prettywriter.h:163-180 | The same for arrays, unless the single-line option is set |
| RoundTrip.WriteThenRead | rapidjson/include/rapidjson/writer.h:376-498 | For every tree of null, booleans, integers in the int64 and uint64 ranges, arbitrary byte strings (well-formed ones for the ASCII target), arrays and objects, in any style: both parsers accept what was written, under all flags, consume it to the end and rebuild the same tree |
| RoundTrip.DocumentRead | rapidjson/include/rapidjson/prettywriter.h:137-255 | The reader on a printed tree: accepted to the last byte, with the events of that tree |
| RoundTrip.StringRead | rapidjson/include/rapidjson/reader.h:957-1054 | A quoted string, plain or with the ASCII target and its surrogate pairs, decodes to the bytes that were written |
| RoundTrip.NumberRead | rapidjson/include/rapidjson/reader.h:1454-1733 | A printed integer of the 64-bit ranges is read back with its value and class |
| RoundTrip.AsciiDocument | rapidjson/include/rapidjson/writer.h:390-448 | With the ASCII target everything that is written for a tree is below 0x80, also where the run is refused midway, and it is refused exactly for trees with a malformed string |
| Unicode.DecodeIsRfc3629 | rapidjson/include/rapidjson/encodings.h:146-176 | The range automaton accepts exactly the byte sequences of section 4 of RFC 3629 and consumes exactly their bytes, and Encode of the result is those bytes |
| Unicode.DecodeEncode | rapidjson/include/rapidjson/encodings.h:102-120 | Decode after Encode is the identity on every code point that is no surrogate, wherever it stands |
| Unicode.Validate | rapidjson/include/rapidjson/encodings.h:179-202 | Validate gives Decode's verdict, takes what Decode takes, and copies those bytes, also where it fails |
| Unicode.Decode16IsRfc2781 | rapidjson/include/rapidjson/encodings.h:307-322 | The UTF-16 decoder takes exactly the characters of section 2.2 of RFC 2781 and yields their code points |
| Unicode.ToUtf16Succeeds | rapidjson/include/rapidjson/encodings.h:658-667 | Transcoding to UTF-16 succeeds exactly on well-formed UTF-8 |
| Unicode.TranscodeRoundTrip | rapidjson/include/rapidjson/encodings.h:275-322 | UTF-8 to UTF-16 and back is the identity on well-formed text |
| SchemaRun.ValidatorDecides | rapidjson/include/rapidjson/schema.h:2074-2145 | A validator made for a schema and fed with the events of any tree is valid at the end exactly when the tree satisfies the schema, which is said of the tree alone by sections 5.3 to 5.5 of the validation draft: types, each member against the schema of its name or what is said of other names, required, each element against the schema of the items, of its place in the tuple or of further ones, all counts, allOf, anyOf, oneOf and not, nested in any way |
| SchemaRun.EnterRun | rapidjson/include/rapidjson/schema.h:2230-2298 | The same for a value anywhere inside a document: the verdict, and the context stack left as it was but for what its own validators saw |
| SchemaRun.EndValueCombines | rapidjson/include/rapidjson/schema.h:745-782 | The verdicts found at their offsets combine as section 5.5 of the validation draft combines the schemas |
| SchemaRun.MembersRun | rapidjson/include/rapidjson/schema.h:892-939 | Through all members of an object: each value is held against the schema of its name, and propertyExist ends as exactly the properties present |
| SchemaRun.ElementJudged | rapidjson/include/rapidjson/schema.h:676-701 | The schema that BeginValue selects for an element judges it as the definition asks: the one list schema, the k-th of a tuple, or what is said of further elements |
| SchemaRun.MemberJudged | rapidjson/include/rapidjson/schema.h:892-939 | The schema that Key selects judges a member as the definition asks: by the first property of its name, else by what is said of other names; none of additionalProperties false |
| SchemaRun.ElementsRun | rapidjson/include/rapidjson/schema.h:676-701 | Through all elements of an array: the run is valid exactly if each satisfies what is said of its index |
| SchemaRun.RequiredChecked | rapidjson/include/rapidjson/schema.h:941-960 | The check on propertyExist and the counts is the one on the members of the tree |
| SchemaRequired.CodeIsRelaxedDraft | rapidjson/include/rapidjson/schema.h:598-602 | For every schema and every tree, what the code reads in the schema is what the draft reads in the relaxed one: all through it, names waived by a string default are not required, and an empty tuple of items, for which Malloc(0) gives a null pointer, allows every element |
| SchemaRequired.ValidatorDecidesRelaxed | rapidjson/include/rapidjson/schema.h:676-960 | The validator's verdict on the events of any tree is whether the tree satisfies the relaxed schema as the draft has it |
| SchemaRequired.ReadingsAgree | rapidjson/include/rapidjson/schema.h:942-950 | Where there is nothing to relax, the validator decides every tree as the draft does |
| SchemaRequired.TupleExactly | rapidjson/include/rapidjson/schema.h:683-697 | For schemas that only have a tuple of items: the validator decides every tree as the draft does if and only if the tuple is not empty or the schema for further elements does not restrict them |
| SchemaRequired.EmptyTupleAllows | rapidjson/include/rapidjson/schema.h:683-697 | A counterexample for the empty tuple: an element that additionalItems forbids and the validator accepts |
| SchemaRequired.WaiverAccepted | rapidjson/include/rapidjson/schema.h:942-950 | A counterexample for each such property: an object without it, which the validator accepts and the draft rejects |
| SchemaRequired.RequiredExactly | rapidjson/include/rapidjson/schema.h:941-960 | For schemas that only require names, a condition on the schema alone: the validator decides every tree as the draft does if and only if no required name has a default |
| ValidatorMethods.GenericSchemaValidator.Parallel | rapidjson/include/rapidjson/schema.h:2081-2091 | The loops over contexts and validators give every validator the event exactly once |
| ValidatorMethods.GenericSchemaValidator.Value | rapidjson/include/rapidjson/schema.h:2096-2111 | A scalar event: begin, type check, parallel loop, end, as the step function says |
| ValidatorMethods.GenericSchemaValidator.Key | rapidjson/include/rapidjson/schema.h:2119-2125 | A key: the schema of the next value, or refusal |
| ValidatorMethods.GenericSchemaValidator.EndObject | rapidjson/include/rapidjson/schema.h:2127-2132 | The end of an object, in the order of the source: parallel loop first, then the checks |
| ValidatorMethods.Combine | rapidjson/include/rapidjson/schema.h:745-782 | The loops of EndValue, with their early exits, compute the combination |
| ValidatorMethods.CountOne | rapidjson/include/rapidjson/schema.h:761-775 | The oneOf loop finds whether exactly one is valid |
| ValidatorPipeline.AcceptedValidated | rapidjson/include/rapidjson/schema.h:2074-2145 | A validator fed with what the reader sent for any accepted text is valid exactly when the tree that the document handler builds from it satisfies the schema |
| ValidatorPipeline.SchemaValidator | rapidjson/example/schemavalidator/schemavalidator.cpp:46-63 | The validator as the reader's handler, which stops it when it turns invalid: for every text that is JSON, parsing ends early exactly when the tree does not satisfy the schema, and the validator's verdict afterwards is whether it does |
| FilterKey.FilterRun | rapidjson/example/filterkey/filterkey.cpp:26-99 | The events of any tree come out as the events of the tree without the members of the key, at every depth and with corrected counts, for any output handler, up to the event it refuses; depth counter and count stack end as they began |
| FilterKey.SkipRun | rapidjson/example/filterkey/filterkey.cpp:36-99 | Inside a dropped value nothing is forwarded, and the depth counter comes back |
| FilterKey.FilterDocument | rapidjson/example/filterkey/filterkey.cpp:26-99 | A whole document through a new filter leaves it as new |
| FilterKey.FilterKeyHandler.EndObject | rapidjson/example/filterkey/filterkey.cpp:60-71 | Sends the number of members kept, not the one received |
| FilterPipeline.FilterPipeline | rapidjson/example/filterkey/filterkey.cpp:108-135 | For every text that the reader accepts: the filter behind it sends the events of the filtered tree, up to the sign of a zero; if no double is left, the writer behind that prints the filtered tree, and the print reads back as it |
| Insitu.InsituStream.ParseString | rapidjson/include/rapidjson/reader.h:957-985 | In-situ parsing accepts what the copying path accepts and hands out the same text; nothing before the string or after the read cursor changes, and every string handed out before stays intact |
| Insitu.InsituStream.ParsePiece | rapidjson/include/rapidjson/reader.h:1001-1054 | After every round the write cursor is at or behind the read cursor, and what it wrote is what the piece decodes to |
| Insitu.InsituStream.Put | rapidjson/include/rapidjson/stream.h:199-199 | A byte is only written where one has been read |
| Insitu.PieceLocal | rapidjson/include/rapidjson/reader.h:1001-1054 | Decoding depends on unread text only |
| InsituReader.GenericReader.ParseInsitu | rapidjson/include/rapidjson/document.h:2298-2309 | A whole document parsed in place by either parser: the same outcome and events as the copying parse of the text as it was given, for any flags and handler; and every string sent, also before a failure, stands in the buffer at the end, terminated, where it was handed out |
| InsituReader.GenericReader.IterativeParse | rapidjson/include/rapidjson/reader.h:2176-2208 | The pushdown loop in place, with kParseIterativeFlag: the outcome of the recursive grammar on the text as it was given |
| InsituReader.GenericReader.ParseString | rapidjson/include/rapidjson/reader.h:957-985 | A string decoded over itself in a buffer already partly overwritten sends what the copying path sends from the text as it was given |
| InsituReader.NumberLocal | rapidjson/include/rapidjson/reader.h:1454-1733 | A number token depends on unread text only |
| Pointer.ParseThenStringify | rapidjson/include/rapidjson/pointer.h:805-936 | Stringify undoes Parse on every accepted pointer that is no URI fragment |
| Pointer.StringifyThenParse | rapidjson/include/rapidjson/pointer.h:944-975 | Parse undoes Stringify, in the string form and in the fragment form: the names of any tokens come back |
| PointerText.ParseExactly | rapidjson/include/rapidjson/pointer.h:805-936 | Parse accepts exactly the pointers of RFC 6901, as strings and as fragments, and the names are what the texts between slashes stand for: escapes replaced in two passes as section 4 says, in fragments after the triplets are decoded; a fragment may hold nothing but unreserved characters and triplets of well-formed UTF-8, and every tilde is followed by 0 or 1 |
| PointerText.FragmentIsDecoded | rapidjson/include/rapidjson/pointer.h:845-864 | Section 6 of RFC 6901 decodes a fragment first and then reads it as a string: what Parse accepts is accepted so, and the names are the same if and only if no triplet stands for a slash |
| PointerText.EncodedDigitRefused | rapidjson/include/rapidjson/pointer.h:874-890 | A fragment that section 6 allows and Parse refuses: a tilde whose digit is encoded |
| Pointer.Unreserved | rapidjson/include/rapidjson/pointer.h:793-795 | The characters that need no percent-encoding are those listed in section 2.3 of RFC 3986 |
| Pointer.StringifySucceeds | rapidjson/include/rapidjson/pointer.h:944-975 | Stringify always succeeds; the fragment form succeeds exactly when every name is well-formed UTF-8 |
| Pointer.PercentStep | rapidjson/include/rapidjson/pointer.h:847-864 | Percent-encoded sequences, of any length, decode as one character however they are followed |
| PointerParser.ParseAllocation | rapidjson/include/rapidjson/pointer.h:814-822 | An accepted pointer has one token for every '/', and its names with their terminators fit in as many code units as the source has |
| PointerParser.GenericPointer.constructor | rapidjson/include/rapidjson/pointer.h:805-936 | The loops fill the token array and the name buffer without leaving either, and end with the tokens, or the error code and offset, of the grammar |
| PointerParser.GenericPointer.Fill | rapidjson/include/rapidjson/pointer.h:836-926 | The loop over the tokens: each name in its own stretch of the buffer, terminated, earlier ones untouched |
| PointerParser.ParseName | rapidjson/include/rapidjson/pointer.h:841-897 | The loop over a token |
| PointerParser.DecodePercent | rapidjson/include/rapidjson/pointer.h:847-858 | Validate into the name buffer stays inside it even where the sequence turns out malformed |
| PointerParser.Convert | rapidjson/include/rapidjson/pointer.h:898-920 | The conversion to an index, leading zeros and the detected overflow included |
| PointerParser.IndexExact | rapidjson/include/rapidjson/pointer.h:904-920 | A name that is not in the canonical form of section 4 of RFC 6901 has no index; that of one that is, is its number modulo 2^32, unless the residue of some prefix is below that of the prefix before it, which is what the overflow check catches; it is the number itself, and not 2^32 - 1, the source's own mark for no index, if and only if the number is below that mark |
| PointerParser.OverflowMissed | rapidjson/include/rapidjson/pointer.h:911-912 | A larger number that the overflow check lets through |
| PointerTree.CreateExists | rapidjson/include/rapidjson/pointer.h:404-450 | Create reports alreadyExist exactly when Get resolved before, and then leaves the tree as it was |
| PointerEdits.PlaceMakes | rapidjson/include/rapidjson/pointer.h:404-450 | The tree that Create or Set makes is exactly the one described token by token: '-' appends one element; an index in an array is its element or fills it up with nulls to that size; a name is the first member of it or one more at the end; an array met with a name is replaced by an object of one member, and what is neither array nor object by an array of index + 1 elements or, without an index, such an object; all else stays |
| PointerTree.GetAfterCreate | rapidjson/include/rapidjson/pointer.h:404-450 | After Create the pointer resolves, to what was there or to the new null, except exactly when a '-' appended to an array on the way |
| PointerTree.GetAfterSet | rapidjson/include/rapidjson/pointer.h:613-620 | After Set it resolves to the value set, with the same exact exception |
| PointerTree.SetSame | rapidjson/include/rapidjson/pointer.h:613-620 | Setting what is there changes nothing |
| PointerTree.SetTwice | rapidjson/include/rapidjson/pointer.h:613-620 | The last of two Sets wins, exactly when no '-' appends to an array on the way |
| PointerTree.SetElsewhere | rapidjson/include/rapidjson/pointer.h:404-450 | A Set, whether it replaces a value or creates one, leaves every pointer that parts from it resolving as before, with exactly two exceptions: into an array that it turns into an object a pointer resolves no more, and to an element that it fills an array up with it resolves to that null |
| PointerTree.SetElsewhereExisting | rapidjson/include/rapidjson/pointer.h:613-620 | Where the Set replaces a value that is there, neither exception can happen |
| PointerTree.EraseSucceeds | rapidjson/include/rapidjson/pointer.h:714-752 | Erase succeeds exactly when the pointer is not empty and Get resolves |
| PointerEdits.EraseErases | rapidjson/include/rapidjson/pointer.h:714-752 | The tree that Erase leaves is exactly the one with that element or member taken out: those in front of it stay, those behind it move up, containers keep their kind, and nothing else changes |
| PointerEdits.EraseElsewhere | rapidjson/include/rapidjson/pointer.h:714-752 | A pointer that parts from the erased one, and at an array goes to no later element, resolves as before |
| PointerEdits.FindLeads | rapidjson/include/rapidjson/pointer.h:482-510 | Get follows a token to the first member of its name, or to the element at its index, or nowhere |
| PointerTree.EraseUndoesCreate | rapidjson/include/rapidjson/pointer.h:714-752 | Erase undoes a Create that only added the last member, or the element at index == size |
| PointerTree.GetAfterErase | rapidjson/include/rapidjson/pointer.h:740-752 | After any successful Erase the pointer no longer resolves if and only if nothing takes the place of the erased value: in an object no other member has its name, in an array it was the last element |
| PointerTree.RepeatedNameStays | rapidjson/include/rapidjson/document.h:1536-1544 | A repeated name: the second member resolves after the first is erased |
| PointerTree.LaterElementMovesUp | rapidjson/include/rapidjson/pointer.h:746-749 | An element before the last: the next one resolves in its place |
| PointerTree.Resolve | rapidjson/include/rapidjson/pointer.h:482-510 | The walk of Get, and the index of the first token that leads nowhere |
| PointerTree.ParsedProper | rapidjson/include/rapidjson/pointer.h:892-920 | In parsed pointers '-' is never an index and tokens of the same name have the same index, as the laws above require |
| HandOff.TakenInOrder | rapidjson/example/parsebyparts/parsebyparts.cpp:87-113 | In every interleaving, a reader that alone never takes the terminator has had from Peek and Take exactly the answers it would have had alone with the joined parts, and what Take returned is a prefix of the accepted parts in order |
| HandOff.EndsAsAlone | rapidjson/example/parsebyparts/parsebyparts.cpp:75-83 | Such a reader, if it ends alone, ends in every interleaving with the result that it has alone with the joined parts, and an interleaving that cannot go on has come to that end |
| HandOff.EveryRunEnds | rapidjson/example/parsebyparts/parsebyparts.cpp:34-122 | No interleaving goes on for ever, under any scheduler: its length is bounded by the reader's turns alone and the number of parts, two more for every spurious wake-up |
| HandOff.NeverBothBlocked | rapidjson/example/parsebyparts/parsebyparts.cpp:34-113 | No reachable state has the parser asleep and the producer waiting, the join in the destructor included |
| HandOff.SomeThreadCanGoOn | rapidjson/example/parsebyparts/parsebyparts.cpp:34-122 | Until the destructor has returned, some thread has a step of its own, without a spurious wake-up |
| HandOff.StepKeeps | rapidjson/example/parsebyparts/parsebyparts.cpp:34-122 | What every step keeps: no lost wake-up on either condition variable; and a part or the terminator only replaces a stream that has been read up, unless parsing has completed |
| Allocator.MallocSound | rapidjson/include/rapidjson/allocators.h:189-201 | A block from Malloc is aligned, inside the used part of its chunk and apart from all live blocks, if and only if no sum of the request leaves size_t |
| Allocator.MallocPlaces | rapidjson/include/rapidjson/allocators.h:189-201 | Where the block goes: the size rounded up to eight, behind what is used of the head chunk if that has room; else at the start of a new chunk, of the configured capacity or just large enough, if there is memory |
| Allocator.ReallocSound | rapidjson/include/rapidjson/allocators.h:204-235 | The same for Realloc, whether it keeps, grows or moves the block: sound if and only if no sum on the way it takes leaves size_t; and it grows in place exactly for the newest block of the head chunk with room |
| Allocator.StepSound | rapidjson/include/rapidjson/allocators.h:158-235 | One Malloc, Realloc or Clear keeps all live blocks sound if and only if its request fits |
| Allocator.RunSound | rapidjson/include/rapidjson/allocators.h:158-235 | A run of them keeps all live blocks sound at every step if and only if every request fits at the state it meets |
| Allocator.NewAllocatorSound | rapidjson/include/rapidjson/allocators.h:125-150 | The same for every run of a new allocator, of any chunk capacity, with or without a buffer of the user's |
| Allocator.ModestRunSound | rapidjson/include/rapidjson/allocators.h:125-235 | With chunk capacity, buffer and requests of at most 2^63 - 64 every run of a new allocator is sound at every step |
| Allocator.LargeRequestOverlaps | rapidjson/include/rapidjson/allocators.h:193-200 | A request that wraps around, after which the next block overlaps a live one |
| Allocator.LargeReallocOverlaps | rapidjson/include/rapidjson/allocators.h:217-225 | The same for Realloc: a block grown in place by a sum that wraps around, after which the next block overlaps a live one |
| AllocatorMethods.MemoryPoolAllocator.Malloc | rapidjson/include/rapidjson/allocators.h:189-201 | The method on real chunks allocates, for any size, where the arithmetic says and writes nothing |
| AllocatorMethods.MemoryPoolAllocator.Realloc | rapidjson/include/rapidjson/allocators.h:204-235 | Realloc of any block to any size on real chunks: where the block ends up, that its first min(old, new) bytes are kept, and that no other byte of any earlier chunk changes but those of the new block; the copy stays inside the pool whenever the request fits |
| AllocatorMethods.MemoryPoolAllocator.Clear | rapidjson/include/rapidjson/allocators.h:158-166 | Frees every chunk but the user's buffer, and empties that |
| AllocatorMethods.MemoryPoolAllocator.Size | rapidjson/include/rapidjson/allocators.h:181-186 | The sum of the sizes, in a register of size_t |
| AllocatorMethods.SizeWithinCapacity | rapidjson/include/rapidjson/allocators.h:171-186 | The sum of the sizes never exceeds that of the capacities, and where the capacities fit size_t neither does Size exceed Capacity |
| Nalu.ReplaceStartCodes | rtmps/src/parsingflv.cpp:588-632 | The in-place loop stays inside the buffer if and only if the lengths chain to its end, and then leaves the rewritten units |
| Nalu.RewriteOfUnits | rtmps/src/parsingflv.cpp:588-632 | On a concatenation of length-prefixed units the result has the same length, every prefix replaced by zeros and a one (00 00 00 01 for four-byte lengths, the start code of Annex B of ITU-T H.264) and every payload unchanged |
| Nalu.ChainIsFramed | rtmps/src/parsingflv.cpp:609-628 | The buffers on which the loop is safe are exactly such concatenations |
| Nalu.ReadLength | rtmps/src/flv_util.cpp:242-247 | The big-endian value of up to four bytes, within 32 bits |
| Nalu.TwoByteLengths | rtmps/src/flv_message.cpp:278-278 | The caller always passes 4: units behind two-byte lengths, which a sequence header may announce, are no chain for it, and the loop leaves the buffer |
| AudioConfig.BitReader.ReadBits | rtmps/src/flv_util.cpp:355-368 | The big-endian value of exactly the next n bits, for n up to 32; beyond, its last 32 bits |
| AudioConfig.BitsCompose | rtmps/src/flv_util.cpp:355-368 | Reading a bits and then b bits is reading a + b bits |
| AudioConfig.ChunkBits | rtmps/src/flv_util.cpp:358-363 | The shift and mask of one pass pick exactly the bits of that stretch of a byte |
| AudioConfig.GetAacHeader | rtmps/src/parsingflv.cpp:217-318 | Each of the four branches extracts the object type, rate and channel configuration of a sequential reading; accepted exactly for the stated lengths |
| AudioConfig.ParseAACSequenceHeader | rtmps/src/parsingflv.cpp:731-784 | The BitReader parser extracts the same three fields, accepted exactly under its checks |
| AudioConfig.ParseImpliesHeader | rtmps/src/parsingflv.cpp:731-784 | Whatever the second parser accepts, the first accepts |
| AudioConfig.HeaderExactly | rtmps/src/parsingflv.cpp:217-318 | The first accepts exactly the announced headers that hold all bits of their fields, apart from those of five bytes with an escaped rate, for which it asks for one more |
| AudioConfig.RatesHalve | rtmps/src/parsingflv.cpp:220-229 | The table of rates: three, their halves, quarters and eighths, 7350, and three indices without a rate |
| AudioConfig.TwoByteConfig | rtmps/src/parsingflv.cpp:758-759 | Not the other way round: a two-byte configuration that only the first accepts |
| SerialNumber.TimestampsReconstructed | rtmps/src/sna.h:79-95 | Folding unroll over the 32-bit serial numbers of timestamps below 2^64, starting below 2^32 and stepping by 0 to 2^31 - 1, gives every true value back |
| SerialNumber.UnrollReconstructs | rtmps/src/sna.h:74-95 | The same for any width up to 63 bits and any right starting count |
| SerialNumber.Compared | rtmps/src/sna.h:29-40 | Less and greater are converse, exclude each other and equality, and cover all pairs but those exactly half the range apart; less means less than half the circle ahead (section 3.2 of RFC 1982) |
| SerialNumber.SumIsGreater | rtmps/src/sna.h:41-51 | A sum with less than half the range, not zero, is greater (section 3.1 of RFC 1982) |
| SerialNumber.AddUnrolls | rtmps/src/sna.h:97-109 | Exactly less than half the range may be added, and adding to a number and its count adds to the value they unroll to |
| SerialNumber.SerialObject.Add | rtmps/src/sna.h:41-51 | The member moves the number on by the other's, and refuses another width or half the range and more without a change |
| Publish.RunDelivers | rtmps/src/to_streamer.cpp:282-316 | In every run, with ingest calls failing at will: delivered and queued frames together are frames 1 to frame_number_ in order, every video frame has a key frame at or before it, the two counters count them by kind, nothing is delivered before both codec infos are known, and the chunks sent are the delivered frames, each right after its segment |
| PublishRuns.RunFrames | rtmps/src/flv_message.cpp:163-304 | In every run, whatever the library answers, the frames delivered and queued are exactly the media of its messages, in order, with kind, number and key flag: every parsed raw AAC, and every parsed NALU from the first of FLV frame type 1 on |
| PublishRuns.DroppedOrPublished | rtmps/src/to_streamer.cpp:29-57 | A message that does not parse, or a video message before the first key frame, changes nothing; every other one is followed by a call of publish_to_streamer |
| PublishRuns.WillingDrains | rtmps/src/to_streamer.cpp:282-316 | After any run, one call with a library that refuses nothing delivers every medium of the run if both codecs and a frame of each kind have come, and none otherwise; and it ends if and only if the end was last asked for or the last end of sequence was not empty |
| PublishRuns.EndOfSequenceEnds | rtmps/src/to_streamer.cpp:308-316 | With such a library the end of the video stream ends the publishing at once |
| PublishRuns.RunInOrder | rtmps/src/to_streamer.cpp:282-316 | In every run the calls come in order: the start first, the codec infos before any frame, the stop as the last |
| Publish.CodecsFromHeaders | rtmps/src/flv_message.cpp:123-243 | Each codec info is known exactly when a sequence header of its kind has come and been parsed |
| Publish.RunKeeps | rtmps/src/to_streamer.cpp:282-316 | The publish state never goes back |
| Publish.PublishKeeps | rtmps/src/to_streamer.cpp:282-316 | One call neither loses nor repeats a frame, and does nothing in the end state |
| Publish.EndIsEmpty | rtmps/src/to_streamer.cpp:299-316 | Entering the end from publishing leaves the queue empty; frames are left behind only if it was never ready to send |
| Publish.StepKeeps | rtmps/src/to_streamer.cpp:29-57 | Every event keeps the invariant; a message that is dropped changes and publishes nothing, and after the end nothing is sent |
| Publish.ProcessKeeps | rtmps/src/flv_message.cpp:163-304 | Frames get consecutive numbers, and a refused message changes nothing; which ones are refused is PublishRuns.DroppedOrPublished |
| Publish.KeyFirstMeans | rtmps/src/flv_message.cpp:286-304 | Every video frame has a video key frame at or before it |
| Publish.MediaPublishEsContext.PublishToStreamer | rtmps/src/to_streamer.cpp:282-316 | The method with its loop over the queue is the publish step |
| Publish.MediaPublishEsContext.ProcessFlvEsMessage | rtmps/src/flv_message.cpp:114-337 | The method is the message step |

## Left out

- Floating point: the conversion of fractions and exponents, dtoa and the Double events' values; a double is its text, and only trees without doubles are printed.
- The SIMD variants of the scanners, the table-driven integer printer, the reservation of output and Flush.
- SizeType: the reader, the pushdown parser's frames, the document, the writer's levels and the filter count members, elements, values and the lengths of strings in 32 bits (the levels in size_t), and the model without bound.
- Parse error codes and offsets of the reader; the two parsers differ in them, so acceptance and events are compared.
- The parse flags for encoding validation, full precision, numbers as strings, NaN and infinity; with encoding validation the reader may take the terminator, which the hand-off does not allow for.
- IterativeParseNext, the incremental form of the pushdown parser.
- A lone low-surrogate escape is not rejected by the reader; no claim is made that parsed strings are well-formed UTF-8.
- Encodings of the reader and writer other than UTF-8, but for the ASCII target of the writer, which is modelled.
- The representation of values (unions, packed pointers, short strings, capacities) and the comparison operators; trees are compared by structure.
- RawValue, copying and swapping of documents.
- InsituReader: white space, comments, numbers and literals are read by the grammar's functions on the buffer as it is, not by loops of their own, which `Reader.dfy` has.
- InsituStream.ParsePiece: a piece is read by the string grammar's function rather than by loops of its own; `Reader.dfy` has those loops, and within a piece all reads come before all writes.
- Schema: compiling a schema from its JSON document, $ref, enum, uniqueItems, patternProperties, dependencies, string lengths and patterns, numeric bounds, error reports and the output handler.
- GenericSchemaValidator: the validators inside its contexts are values, not objects of their own, so aliasing between validators is not in the model; on an invalid validator only the verdict is kept.
- RequiredExactly: for schemas other than these and those of TupleExactly CodeIsRelaxedDraft says what the validator decides instead of the draft's reading; whether the two differ on some tree is not put as a condition on the schema alone, because a waived name may sit where no value can reach it.
- JSON Pointer: the trees of Create, Set and Erase are values, so editing in place and the validity of returned references are not in the model; Append, Swap, GetWithDefault and comparison of pointers.
- Hand-off: a reader is any function from the answers it has had to its next call of Peek or Take, or its end; that GenericReader is one, its methods reaching the text only through Peek and Take, is read off its code.  The producer is one thread, as the class requires.
- Allocator: pointers are pairs of a chunk and an offset behind its header, so the comparison of addresses in Realloc is one of pairs; the alignment of the memory that the base allocator returns is taken as given.
- Publish: the contents of frames, their timestamps, and isKeyFrame, which make_media_es does not set from the FLV frame type; the HTTP variant of publishing; counters are unbounded.
- Publish.MediaPublishEsContext.ProcessFlvEsMessage: what the bytes of a message parse to is given with the message.
- MediaPublishEsContext: the ingest library's answers to one call of publish_to_streamer are given to it beforehand.
- Nalu: the temporary buffers for lengths and start codes; where the source would leave the buffer the model stops.
- AudioConfig: the sound rate, size and type fields and the channel-count table, on which the two parsers are not compared.
- SerialNumber: widths of 64 bits, where the source's use of floating-point powers is not defined; out-of-order input to unroll.
- FLV sequence headers of AVC, dump readers, RTMP chunks and handlers, logging, base64.
