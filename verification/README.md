# Verified model of the bundled JSON, Unicode and debugger libraries

This project models three libraries that are bundled with the repository as
gems, and proves what they are for.

**JSON (json 2.0.3).** `json_grammar.dfy` is the grammar: concrete syntax trees of
RFC 7159 with the three extensions of the parser (comments, a backslash before any
byte that is not a control character, NaN and the infinities when allowed), what
they look like, what they denote and how deeply they nest. `json_reader.dfy` says
what the parser computes, as recursive functions; `json_scanners.dfy` and
`json_machines.dfy` hold the Ragel machines of the C extension, state by state,
proved to compute these functions; `json_nil.dfy` says when unescaping fails;
`json_lexical.dfy`, `json_texts.dfy`, `json_soundness.dfy` and
`json_completeness.dfy` relate the functions to the grammar in both directions.
`json_tables.dfy` is the table-driven twin of the number machines in the Java
extension. `fbuffer.dfy` and `decimal.dfy` are the growing buffer and integer
printing; `json_escape.dfy`, `json_converters.dfy` and `json_encoder.dfy` the escaping
of strings, as a reference, in C and in Java; `json_decoder.dfy` is the Java twin of
unescaping, and `json_transcoder.dfy` what encoder and decoder share;
`json_readback.dfy` and `json_malformed.dfy` say which strings are accepted although
they are not UTF-8, in C and in Java, and what becomes of them;
`json_generator.dfy` is the generator with its depth counter and options;
`json_roundtrip.dfy` puts generator and parser together. `bytes.dfy`, `utf8.dfy`,
`json_value.dfy` and `json_names.dfy` are shared.

**Unicode decomposition (unf_ext).** `unf_order.dfy` is canonical ordering (Unicode
Standard section 3.11, D108 and D109) for any assignment of classes;
`unf_sort.dfy` the byte-level sort; `unf_trie.dfy` the double-array trie and the loops
that walk it; `unf_normalizer.dfy` decomposition with its fast path and segments.

**Debugger core (debase).** `debase_queue.dfy` is the linked list of waiting threads,
`debase_lock.dfy` the lock as a transition system, `debase_context.dfy` the stepping
counters, `debase_tracing.dfy` all of it together with the rule for switching
tracing off.

## How to read it

- A method or class follows the C, C++ or Java code; its `ensures` ties it to a
  function, and lemmas say what the function means. `hide` statements only keep
  function bodies away from the verifier where they are not needed.
- Bytes are numbers from 0 to 255, with names for those that mean something in JSON;
  `json_scanners.dfy`, `json_machines.dfy` and `json_tables.dfy` keep the numbers of
  the generated code. Bit operations whose operands do not overlap are written as
  sums, quotients and remainders. `JsonScanners` and `JsonMachines` compare unsigned
  bytes: in every comparison of the generated code a byte above 127 takes the branch
  that the negative `char` takes.
- Exceptions are results. `NilString` stands for the nil that unescaping returns when
  the string ends inside what it takes for a unicode escape or a surrogate pair, and
  that is then used as a string. Positions are indices; a NULL pointer is `None`.
- A Ruby Hash is a sequence of members in insertion order; storing under an existing
  name keeps its place. Integers beyond 62 bits are printed by Ruby's own `to_s`,
  taken to be canonical decimal text. A float is carried as text.
- The tables of unf_ext are parameters. `TrieOf` and `Described` state what is assumed
  of them: keys are whole UTF-8 characters and no key ends inside one, all edges of
  the nodes on a path lie within the array, NUL is not a key, classes are at most
  254 and 0 for starters, values have 24 bits, and mapped text is not empty, free of
  NUL and cannot be decomposed further.
- In debase a step is what a thread does between two points where another thread may
  run: callbacks, `rb_thread_stop` and `rb_thread_run`, which may schedule. So a
  `cleanup` that runs another thread is two steps, and anything may happen before it
  goes on to look whether tracing can be switched off. Callbacks return, threads do
  not die while queued, and the SUSPEND and SKIPPED flags are never set. The flag
  STEPPED is never set either, but is modelled. Adding a breakpoint or catchpoint and
  switching tracing on is one step.
- Where code and documentation differ the model follows the code: the range tests of
  `step_over` and `stop_frame=` ask for a number that is negative and not below the
  stack size, and so refuse nothing while the counted size is not negative
  (`DebaseContext.RangeTestsExactly`).

## Results that differ from what one would expect

- Tracing can be off with a stop pending. `can_disable_trace_points` does not look at
  `stop_frame`; an event that waited for the lock while tracing was switched off is
  still handled, and reaching the armed frame then sets `stop_next` or stops the
  thread. `DebaseTracing.StepExact` and `RunExact` say exactly when,
  `StopFrameUnsettles` gives the run.
- A thread woken by other code than `cleanup` can strand the one behind it
  (`DebaseLock.SpuriousWakeStrands`). `StepWatched` and `RunWatched` say exactly when: a
  cleanup takes a thread from the queue that is no longer stopped, while others are
  and nobody has been woken.
- Threads are woken in the order of the queue (`DebaseLock.WokenInTurn`), but a woken
  thread that finds the lock taken again goes to the end of it, and nothing bounds
  how often that happens (`DebaseLock.OvertakenAgain`).
- A string of the grammar can make the parser use nil as a string.
  `JsonNil.NilExactly` says which strings do: those with a high surrogate near the
  end, and those in which a high surrogate without a partner swallows the first
  backslash of an escaped one, so that reading slips and comes to the end inside an
  escape (`LoneHighIsNil`, `SlippedIsNil`).
- `isLegalUTF8` accepts some sequences that are not UTF-8; `JsonConverters.LegalExactly`
  says which. Their second byte is copied as it is, and may be a quote: the generated
  text then contains a quote that is not escaped (`JsonReadBack.QuoteHidden`).
  `JsonReadBack.ReadsBackExactly` says for which accepted strings the output is one
  string that is read back as itself.
- The Java decoder looks at 16 bits only of a character behind a high surrogate
  (`JsonDecoder.LowSurrogateCut`). `JsonDecoder.HighExactly` and `DecodedExactly` say
  which well-formed bodies with unpaired surrogates it accepts because of that.
- The reader of the Java extension accepts surrogates written as UTF-8 and codes
  below 0x10000 written in four bytes, and nothing else that is not UTF-8
  (`JsonMalformed.ReadExactly`, `MalformedRead`). The C converters let other malformed
  bytes through; no malformed string is accepted by both
  (`JsonMalformed.BothAcceptExactly`).
- After any error the generator's depth counter still counts every bracket that was
  open (`JsonGenerator.DepthCountsOpen`), so the same state then indents deeper and
  refuses earlier; after a nesting error it refuses every array and object
  (`JsonGenerator.RefusesAllAfter`).

## Model

| member | source | states |
|---|---|---|
| JsonSoundness.ParseSound | src/main/resources/gems/json-2.0.3/ext/json/ext/parser/parser.c:116-1986 | Soundness: every accepted source is ignorable text, one tree of the grammar and ignorable text, byte for byte; the tree nests within max_nesting; and if its surrogates are paired the result is the value the tree denotes |
| JsonCompleteness.ParseComplete | src/main/resources/gems/json-2.0.3/ext/json/ext/parser/parser.c:116-1986 | Completeness and exact nesting limit: every text of the grammar with paired surrogates gives its value when its depth is within max_nesting (or the limit is 0), and the nesting error exactly otherwise |
| JsonMachines.ParseSource | src/main/resources/gems/json-2.0.3/ext/json/ext/parser/parser.c:1828-1986 | The main machine, run state by state with its sub-machines, gives exactly what the recursive reading `Parse` gives, for every source and configuration |
| JsonMachines.ParseValue | src/main/resources/gems/json-2.0.3/ext/json/ext/parser/parser.c:494-874 | The value machine with its literal states and its number, string, array and object actions gives the outcome of `ReadValue`, including the unadvanced pointer in state 29 after a failed sub-parse |
| JsonMachines.ParseObject | src/main/resources/gems/json-2.0.3/ext/json/ext/parser/parser.c:116-479 | The 27-state object machine gives the outcome of `ReadObject`; on anything but an opening brace it fails, and too deep a nesting raises first |
| JsonMachines.ParseArray | src/main/resources/gems/json-2.0.3/ext/json/ext/parser/parser.c:1153-1401 | The 17-state array machine gives the outcome of `ReadArray`; it never returns NULL but raises |
| JsonMachines.ParseString | src/main/resources/gems/json-2.0.3/ext/json/ext/parser/parser.c:1497-1654 | The string machine and its unescape action give the outcome of `ReadString` |
| JsonMachines.ParseNumber | src/main/resources/gems/json-2.0.3/ext/json/ext/parser/parser.c:538-560 | The number action, which tries minus infinity, the float machine and then the integer machine, gives the outcome of `ReadNumber` |
| JsonMachines.ObjectRejectsStuck | src/main/resources/gems/json-2.0.3/ext/json/ext/parser/parser.c:201-275 | Wherever a value might begin, the state behind a value rejects that byte: an unadvanced pointer returned by a failed sub-parse always makes the object fail |
| JsonMachines.ArrayRejectsStuck | src/main/resources/gems/json-2.0.3/ext/json/ext/parser/parser.c:1210-1241 | The same for arrays: an unadvanced pointer makes the array raise |
| JsonMachines.SourceValue | src/main/resources/gems/json-2.0.3/ext/json/ext/parser/parser.c:1880-1900 | The same for the main machine: behind an unadvanced pointer the source is rejected; behind a value only ignorable text is accepted |
| JsonMachines.NoIntBehindFloat | src/main/resources/gems/json-2.0.3/ext/json/ext/parser/parser.c:549-554 | After a float has been read, the integer machine that is still run behind it finds nothing, so the second scan changes neither position nor result |
| JsonMachines.CommentStepEnd | src/main/resources/gems/json-2.0.3/ext/json/ext/parser/parser.c:190-224 | One byte inside a comment, in any of the repeated groups of four states, keeps the place where the comment will end |
| JsonScanners.ScanInteger | src/main/resources/gems/json-2.0.3/ext/json/ext/parser/parser.c:888-973 | The integer machine ends where an optional sign and a number without leading zeros ends, and nowhere if a digit follows a leading zero |
| JsonScanners.ScanFloat | src/main/resources/gems/json-2.0.3/ext/json/ext/parser/parser.c:987-1138 | The float machine ends behind the longest float, and fails when a sign, a dot or an exponent letter follows it |
| JsonScanners.ScanString | src/main/resources/gems/json-2.0.3/ext/json/ext/parser/parser.c:1513-1625 | The string machine finds the first quote that is not escaped, and fails on control bytes and on unicode escapes without four hex digits |
| JsonScanners.UnescapeString | src/main/resources/gems/json-2.0.3/ext/json/ext/parser/parser.c:1403-1471 | Unescaping with deferred copying of plain runs equals unescaping byte by byte (`Unescape`), also where it returns nil |
| JsonNil.NilExactly | src/main/resources/gems/json-2.0.3/ext/json/ext/parser/parser.c:1403-1471 | For every string of the grammar: unescaping gives nil if and only if, read item by item with the swallowed bytes, the string comes to its end inside a unicode escape or a pair; a string with paired surrogates never does |
| JsonNil.NilIsGrammatical | src/main/resources/gems/json-2.0.3/ext/json/ext/parser/parser.c:1403-1471 | Whatever the source, what leads to nil is a string of the grammar with an unpaired surrogate |
| JsonNil.NilWhenSlipped | src/main/resources/gems/json-2.0.3/ext/json/ext/parser/parser.c:1450-1464 | The same from the second backslash of an escaped one, after the first has been swallowed |
| JsonNil.LoneHighIsNil | src/main/resources/gems/json-2.0.3/ext/json/ext/parser/parser.c:1436-1442 | The escape of one high surrogate between quotes gives nil |
| JsonNil.SlippedIsNil | src/main/resources/gems/json-2.0.3/ext/json/ext/parser/parser.c:1436-1464 | A string whose only high surrogate has nine bytes behind it gives nil, since reading slips |
| JsonLexical.UnescapeItems | src/main/resources/gems/json-2.0.3/ext/json/ext/parser/parser.c:1403-1471 | Unescaping the text of string items with paired surrogates gives exactly what the items denote |
| JsonLexical.JoinIsFromPair | src/main/resources/gems/json-2.0.3/ext/json/ext/parser/parser.c:1443-1448 | The masks and shifts of the C code join two surrogates as RFC 2781 section 2.2 does |
| JsonLexical.StringSound | src/main/resources/gems/json-2.0.3/ext/json/ext/parser/parser.c:1497-1654 | What is read as a string is a quoted sequence of items of the grammar ending where the string ends, and the value is what the items denote |
| JsonLexical.StringComplete | src/main/resources/gems/json-2.0.3/ext/json/ext/parser/parser.c:1497-1654 | Every quoted sequence of items with paired surrogates is read as what it denotes, to its end |
| JsonLexical.SkipSound | src/main/resources/gems/json-2.0.3/ext/json/ext/parser/parser.c:178-226 | What is skipped between tokens is whitespace, block comments and line comments of the grammar |
| JsonLexical.SkipComplete | src/main/resources/gems/json-2.0.3/ext/json/ext/parser/parser.c:178-226 | All ignorable text before a solid byte is skipped, up to that byte |
| JsonLexical.FloatSound | src/main/resources/gems/json-2.0.3/ext/json/ext/parser/parser.c:987-1138 | What the float machine delimits is a float of the grammar |
| JsonLexical.FloatComplete | src/main/resources/gems/json-2.0.3/ext/json/ext/parser/parser.c:987-1138 | Every float of the grammar before something that may follow a value is delimited to its end |
| JsonTexts.HereIsText | src/main/resources/gems/json-2.0.3/ext/json/ext/parser/parser.c:116-1986 | The grammar read in place and the grammar written out agree: a tree stands at a position exactly when its text does, with the same length |
| JsonTables.ParseIntegerInternal | src/main/resources/gems/json-2.0.3/java/src/json/ext/Parser.java:781-914 | The table interpreter with its binary searches ends where the C integer machine ends, and gives -1 where that fails, for every byte sequence and start |
| JsonTables.ParseFloatInternal | src/main/resources/gems/json-2.0.3/java/src/json/ext/Parser.java:1038-1171 | The same for floats |
| JsonTables.Match | src/main/resources/gems/json-2.0.3/java/src/json/ext/Parser.java:823-868 | Binary search over single bytes and then over ranges selects the transition that a linear search selects, for every well-ordered table |
| JsonTables.SearchRange | src/main/resources/gems/json-2.0.3/java/src/json/ext/Parser.java:846-866 | The search over pairs of bounds, with half the distance rounded to even, finds the range that holds the byte, if there is one |
| JsonTables.IntegerTable | src/main/resources/gems/json-2.0.3/java/src/json/ext/Parser.java:679-757 | For every state and every signed byte the packed integer tables lead to the state of the C machine, with the action exactly at the end |
| JsonTables.FloatTable | src/main/resources/gems/json-2.0.3/java/src/json/ext/Parser.java:933-1014 | The same for the float tables |
| JsonRoundTrip.RoundTrip | src/main/resources/gems/json-2.0.3/ext/json/ext/generator/generator.c:718-941 | Round trip: for every value without floats, with well-formed strings and distinct names, every starting depth, both ascii_only modes and all formatting options that are ignorable text, generation succeeds exactly when the nesting fits, and parsing the text gives the value back, or the nesting error exactly when it is too deep for the parser |
| JsonRoundTrip.GenerateSucceeds | src/main/resources/gems/json-2.0.3/ext/json/ext/generator/generator.c:718-803 | Generation succeeds if and only if all strings and numbers can be written and the nesting fits below the starting depth; a value that can be written fails only with the nesting error |
| JsonRoundTrip.GeneratedIsText | src/main/resources/gems/json-2.0.3/ext/json/ext/generator/generator.c:718-902 | The generated text is the text of a tree of the grammar, delimiter by delimiter |
| JsonRoundTrip.TreeRepresents | src/main/resources/gems/json-2.0.3/ext/json/ext/generator/generator.c:718-902 | That tree is grammatical, has paired surrogates, denotes the value and nests as deeply as the value |
| JsonRoundTrip.PrintedInteger | src/main/resources/gems/json-2.0.3/ext/json/ext/fbuffer/fbuffer.h:152-163 | The integer machine reads a printed integer to its end, as the same integer |
| JsonRoundTrip.WhitespaceIsIgnorable | src/main/resources/gems/json-2.0.3/ext/json/ext/generator/generator.c:718-803 | Every text of whitespace is among the options the round trip covers |
| JsonGenerator.State.Generate | src/main/resources/gems/json-2.0.3/ext/json/ext/generator/generator.c:871-902 | Appends what `Generated` says or raises its error; the depth counter is left as `DepthLeft` says, after a success as on entry; after a nesting error it stays at the limit, or where it was if that is higher |
| JsonGenerator.State.GenerateArray | src/main/resources/gems/json-2.0.3/ext/json/ext/generator/generator.c:767-803 | The same for arrays, with delimiters, indentation and the closing line break, and with the counter raised by an error inside |
| JsonGenerator.State.GenerateObject | src/main/resources/gems/json-2.0.3/ext/json/ext/generator/generator.c:718-765 | The same for objects |
| JsonGenerator.State.GenerateString | src/main/resources/gems/json-2.0.3/ext/json/ext/generator/generator.c:805-817 | Appends the quoted conversion of the string, or raises the error of the converter |
| JsonGenerator.State.PrepareBuffer | src/main/resources/gems/json-2.0.3/ext/json/ext/generator/generator.c:904-933 | The delimiters are made from the options, and the buffer is new and empty |
| JsonGenerator.State.PartialGenerate | src/main/resources/gems/json-2.0.3/ext/json/ext/generator/generator.c:935-941 | The returned string is what `Generated` says, whatever the initial length of the buffer, and the depth counter is left as `DepthLeft` says |
| JsonGenerator.DepthCountsOpen | src/main/resources/gems/json-2.0.3/ext/json/ext/generator/generator.c:718-803 | After a success the counter is as it was; after every error it is raised by the number of brackets open at the first place that cannot be written |
| JsonGenerator.RefusesAllAfter | src/main/resources/gems/json-2.0.3/ext/json/ext/generator/generator.c:731-735 | After a nesting error the counter is at the limit, or where it was if that is higher, and every array and object is refused |
| JsonConverters.ConvertToJson | src/main/resources/gems/json-2.0.3/ext/json/ext/generator/generator.c:232-305 | Run copying appends exactly the escape of the string sequence by sequence, or raises at the first partial or illegal sequence |
| JsonConverters.ConvertToJsonAscii | src/main/resources/gems/json-2.0.3/ext/json/ext/generator/generator.c:133-226 | Decoding by offset subtraction and splitting into surrogates appends exactly the ASCII escape, or raises at the same place |
| JsonConverters.ConvertText | src/main/resources/gems/json-2.0.3/ext/json/ext/generator/generator.c:133-305 | On encoded text both converters write the escape of the text, one scalar value at a time |
| JsonConverters.ConvertersRefuseAlike | src/main/resources/gems/json-2.0.3/ext/json/ext/generator/generator.c:133-305 | Both converters refuse the same strings with the same error |
| JsonConverters.StringRoundTrip | src/main/resources/gems/json-2.0.3/ext/json/ext/parser/parser.c:1403-1471 | What either converter writes for well-formed UTF-8 is read back as the same bytes, and ASCII output has only bytes 0x20 to 0x7f |
| JsonConverters.LegalExactly | src/main/resources/gems/json-2.0.3/ext/json/ext/generator/generator.c:85-109 | isLegalUTF8 accepts exactly the encoded scalar values and, besides, the sequences that begin with 0xED or 0xF4 and have a second byte below 0x80 |
| JsonConverters.LegalButMalformed | src/main/resources/gems/json-2.0.3/ext/json/ext/generator/generator.c:99-101 | A concrete sequence that is accepted although it is not UTF-8 |
| JsonReadBack.ReadsBackExactly | src/main/resources/gems/json-2.0.3/ext/json/ext/generator/generator.c:232-305 | For every accepted string: the quoted output is one string that the parser reads back as the same bytes if and only if no sequence has a low second byte that should have been escaped |
| JsonReadBack.AsciiReadsBackExactly | src/main/resources/gems/json-2.0.3/ext/json/ext/generator/generator.c:133-226 | With ascii_only the quoted output of an accepted string is always one string, and it is read back as the same bytes if and only if they are UTF-8 |
| JsonReadBack.QuoteHidden | src/main/resources/gems/json-2.0.3/ext/json/ext/generator/generator.c:96-103 | Three bytes that are accepted as they are, whose second is then read as the closing quote |
| JsonReadBack.TextHidesNothing | src/main/resources/gems/json-2.0.3/ext/json/ext/generator/generator.c:96-103 | Well-formed text meets the condition |
| JsonConverters.CodeIsScalar | src/main/resources/gems/json-2.0.3/ext/json/ext/generator/generator.c:160-186 | No accepted sequence, malformed ones included, decodes to a surrogate or beyond the last plane, so the two strict-conversion errors behind the test are never raised |
| JsonConverters.CodeOfEncoded | src/main/resources/gems/json-2.0.3/ext/json/ext/generator/generator.c:150-160 | Subtracting the offset from the raw sum leaves the scalar value |
| JsonEscape.ScalarWrites | src/main/resources/gems/json-2.0.3/ext/json/ext/generator/generator.c:112-226 | The escape of a scalar value is grammatical, closed under pairing, and denotes its UTF-8 encoding |
| JsonEscape.EscapeReadsBack | src/main/resources/gems/json-2.0.3/ext/json/ext/parser/parser.c:1497-1654 | The escape of a text between quotes is read back as the UTF-8 encoding of the text |
| JsonEscape.PairOf | src/main/resources/gems/json-2.0.3/ext/json/ext/generator/generator.c:212-217 | Splitting into surrogates and joining them is the identity |
| FBuffers.FBuffer.constructor | src/main/resources/gems/json-2.0.3/ext/json/ext/fbuffer/fbuffer.h:76-84 | Nothing is allocated, and an initial length of 0 is replaced by the default |
| FBuffers.FBuffer.IncCapa | src/main/resources/gems/json-2.0.3/ext/json/ext/fbuffer/fbuffer.h:97-112 | There is room for the request, the contents stay, the capacity is the initial length times a power of two, and memory moves only if the room was too small |
| FBuffers.FBuffer.Append | src/main/resources/gems/json-2.0.3/ext/json/ext/fbuffer/fbuffer.h:114-121 | The contents become the old contents and the new bytes |
| FBuffers.FBuffer.AppendChar | src/main/resources/gems/json-2.0.3/ext/json/ext/fbuffer/fbuffer.h:135-140 | The contents become the old contents and one byte |
| FBuffers.FBuffer.AppendLong | src/main/resources/gems/json-2.0.3/ext/json/ext/fbuffer/fbuffer.h:165-170 | The contents become the old contents and the canonical decimal text of the number |
| FBuffers.FBuffer.Clear | src/main/resources/gems/json-2.0.3/ext/json/ext/fbuffer/fbuffer.h:92-95 | The contents become empty, the memory is kept |
| FBuffers.Doubled | src/main/resources/gems/json-2.0.3/ext/json/ext/fbuffer/fbuffer.h:106 | The growth loop ends, at the first doubling that has room |
| FBuffers.LongToText | src/main/resources/gems/json-2.0.3/ext/json/ext/fbuffer/fbuffer.h:152-163 | For |n| up to 2^62 at most 20 bytes are written and they are the canonical decimal text |
| FBuffers.ReverseInPlace | src/main/resources/gems/json-2.0.3/ext/json/ext/fbuffer/fbuffer.h:143-150 | The bytes of the range are reversed, the others unchanged |
| FBuffers.WriteDigits | src/main/resources/gems/json-2.0.3/ext/json/ext/fbuffer/fbuffer.h:158-159 | The digits are written least significant first, as many as the number has |
| Decimal.DigitsDenote | src/main/resources/gems/json-2.0.3/ext/json/ext/fbuffer/fbuffer.h:152-163 | Canonical decimal digits denote the number and have no leading zero |
| JsonEncoder.EncodersAgree | src/main/resources/gems/json-2.0.3/java/src/json/ext/StringEncoder.java:45-104 | On well-formed UTF-8 and either ascii_only setting the Java encoder and the C converters write the same bytes |
| JsonEncoder.EncodedText | src/main/resources/gems/json-2.0.3/java/src/json/ext/StringEncoder.java:45-104 | On encoded text the Java encoder writes the escape of the text, one scalar value at a time |
| JsonEncoder.StringEncoder.Encode | src/main/resources/gems/json-2.0.3/java/src/json/ext/StringEncoder.java:45-53 | Encoding with deferred copying appends, between quotes, what writing character by character gives (`Encoded`), with the same exceptions; if no sequence is pending on entry, none is after a success |
| JsonEncoder.StringEncoder.HandleChar | src/main/resources/gems/json-2.0.3/java/src/json/ext/StringEncoder.java:55-85 | A character is added to the pending sequence or ends it and is escaped; what is written and pending grows by exactly its piece |
| JsonEncoder.StringEncoder.EscapeUtf8Char | src/main/resources/gems/json-2.0.3/java/src/json/ext/StringEncoder.java:93-98 | One or two code units from the shared array are appended as unicode escapes |
| JsonEncoder.StringEncoder.EscapeCodeUnit | src/main/resources/gems/json-2.0.3/java/src/json/ext/StringEncoder.java:100-104 | Four hex digits of the unit are put in their place, the rest of the shared array stays |
| JsonTranscoder.Transcoder.ReadUtf8Char | src/main/resources/gems/json-2.0.3/java/src/json/ext/ByteListTranscoder.java:73-108 | Reads the character that `ReadAt` describes, or raises where that has none |
| JsonTranscoder.Transcoder.QuoteStart | src/main/resources/gems/json-2.0.3/java/src/json/ext/ByteListTranscoder.java:132-134 | The character read last joins what is still to be copied |
| JsonTranscoder.Transcoder.QuoteStop | src/main/resources/gems/json-2.0.3/java/src/json/ext/ByteListTranscoder.java:145-150 | A pending sequence is copied up to the given end and nothing is pending any more |
| JsonTranscoder.Transcoder.Init | src/main/resources/gems/json-2.0.3/java/src/json/ext/ByteListTranscoder.java:44-50 | The source, the range and the output are set; a pending sequence stays pending |
| JsonTranscoder.ReadEncoded | src/main/resources/gems/json-2.0.3/java/src/json/ext/ByteListTranscoder.java:73-129 | At an encoded scalar value the reader gives that value and the position behind it |
| JsonMalformed.ReadExactly | src/main/resources/gems/json-2.0.3/java/src/json/ext/ByteListTranscoder.java:73-129 | A character is read if and only if a scalar value is encoded there, or a surrogate is, or four bytes stand for a code below 0x10000; these exclude each other, and an encoded scalar value is read as itself |
| JsonMalformed.MalformedRead | src/main/resources/gems/json-2.0.3/java/src/json/ext/ByteListTranscoder.java:73-129 | One surrogate and one overlong sequence that are read although they are not UTF-8 |
| JsonMalformed.EncoderAcceptsExactly | src/main/resources/gems/json-2.0.3/java/src/json/ext/StringEncoder.java:45-53 | The encoder accepts exactly the strings made of such sequences |
| JsonMalformed.BothAcceptExactly | src/main/resources/gems/json-2.0.3/java/src/json/ext/StringEncoder.java:45-53 | The C converters and the Java encoder both accept a string if and only if it is UTF-8 |
| JsonDecoder.DecodersAgree | src/main/resources/gems/json-2.0.3/java/src/json/ext/StringDecoder.java:31-104 | A string body of the grammar that is well-formed UTF-8 and has paired surrogates is decoded to what it denotes by the Java decoder and by the C unescaping alike |
| JsonDecoder.DecodedItems | src/main/resources/gems/json-2.0.3/java/src/json/ext/StringDecoder.java:31-104 | Characters and escapes read one by one give what the items of the body denote |
| JsonDecoder.StringDecoder.Decode | src/main/resources/gems/json-2.0.3/java/src/json/ext/StringDecoder.java:31-40 | Decoding with deferred copying equals decoding character by character (`Decoded`), with the same exceptions, also on malformed text |
| JsonDecoder.StringDecoder.HandleChar | src/main/resources/gems/json-2.0.3/java/src/json/ext/StringDecoder.java:42-49 | What is written and pending grows by exactly what the character or escape becomes |
| JsonDecoder.StringDecoder.HandleEscapeSequence | src/main/resources/gems/json-2.0.3/java/src/json/ext/StringDecoder.java:51-84 | The same for an escape, or an exception where `EscapeAt` has none |
| JsonDecoder.StringDecoder.HandleLowSurrogate | src/main/resources/gems/json-2.0.3/java/src/json/ext/StringDecoder.java:86-104 | The pair is written as one encoded scalar value, or an exception is raised |
| JsonDecoder.StringDecoder.ReadHex | src/main/resources/gems/json-2.0.3/java/src/json/ext/StringDecoder.java:134-154 | Four digits are read as characters, and their value and end are those of `HexAt` |
| JsonDecoder.StringDecoder.WriteUtf8Char | src/main/resources/gems/json-2.0.3/java/src/json/ext/StringDecoder.java:106-131 | The encoding of the scalar value is appended through the shared array |
| JsonDecoder.HighExactly | src/main/resources/gems/json-2.0.3/java/src/json/ext/StringDecoder.java:86-104 | In well-formed text the escape of a high surrogate is accepted if and only if a low one is escaped behind it or a character there passes for one when cut to 16 bits, and is joined with that |
| JsonDecoder.DecodedExactly | src/main/resources/gems/json-2.0.3/java/src/json/ext/StringDecoder.java:31-104 | For every string body of the grammar that is well-formed UTF-8: it is accepted if and only if its surrogates are paired or have such a character for their partner, and gives what it then denotes |
| JsonDecoder.LowSurrogateCut | src/main/resources/gems/json-2.0.3/java/src/json/ext/StringDecoder.java:86-104 | A body in which this happens: the escape of U+D800 in front of U+1DC00 is joined to U+10000 |
| UnfNormalizer.Normalizer.Decompose | src/main/resources/gems/unf_ext-0.0.7.2/ext/unf_ext/unf/normalizer.hh:43-57 | For every well-formed string the result is the canonical ordering of the full mappings of all characters; the argument itself is returned exactly when it is already in that form |
| UnfNormalizer.DecomposedIsClean | src/main/resources/gems/unf_ext-0.0.7.2/ext/unf_ext/unf/normalizer.hh:43-57 | Idempotence: a decomposed text has no NUL, is found clean and is its own decomposed form |
| UnfNormalizer.Normalizer.DecomposeTwice | src/main/resources/gems/unf_ext-0.0.7.2/ext/unf_ext/unf/normalizer.hh:43-57 | A second call of decompose on the result of the first returns its argument, unchanged, through the fast path |
| UnfNormalizer.DecomposedSplits | src/main/resources/gems/unf_ext-0.0.7.2/ext/unf_ext/unf/normalizer.hh:43-64 | A text can be decomposed piece by piece where the pieces begin with starters that have no decomposition |
| UnfNormalizer.Normalizer.DecomposeOne | src/main/resources/gems/unf_ext-0.0.7.2/ext/unf_ext/unf/normalizer.hh:59-64 | A segment is appended fully mapped and ordered |
| UnfNormalizer.Normalizer.NextInvalidChar | src/main/resources/gems/unf_ext-0.0.7.2/ext/unf_ext/unf/normalizer.hh:95-115 | The text up to the returned place is in order, the place is a boundary unless it is the start, and it is the end exactly when the whole text is in order |
| UnfNormalizer.Normalizer.NextValidStarter | src/main/resources/gems/unf_ext-0.0.7.2/ext/unf_ext/unf/normalizer.hh:117-122 | The next starter without decomposition, or the end |
| UnfNormalizer.Normalizer.MapRange | src/main/resources/gems/unf_ext-0.0.7.2/ext/unf_ext/unf/trie/searcher.hh:103-128 | The full mappings of the characters of the range are appended |
| UnfNormalizer.Normalizer.QuickCheck | src/main/resources/gems/unf_ext-0.0.7.2/ext/unf_ext/unf/trie/searcher.hh:101 | Whether the character has no decomposition |
| UnfNormalizer.Normalizer.GetClass | src/main/resources/gems/unf_ext-0.0.7.2/ext/unf_ext/unf/trie/searcher.hh:40 | The combining class of the character |
| UnfNormalizer.Sort | src/main/resources/gems/unf_ext-0.0.7.2/ext/unf_ext/unf/trie/searcher.hh:42-80 | Sorting the bytes of a string that is not empty leaves the bytes of its characters in canonical order |
| UnfSort.BubbleSort | src/main/resources/gems/unf_ext-0.0.7.2/ext/unf_ext/unf/trie/searcher.hh:83-93 | The passes up to the last exchange sort by class and keep, for every class, the same bytes in the same order; bytes outside the range stay |
| UnfSort.SortedBytesAreOrdered | src/main/resources/gems/unf_ext-0.0.7.2/ext/unf_ext/unf/trie/searcher.hh:42-93 | Bytes of a run sorted so are the bytes of the run in canonical order: characters stay whole |
| UnfSort.SortedUnique | src/main/resources/gems/unf_ext-0.0.7.2/ext/unf_ext/unf/trie/searcher.hh:83-93 | A stable sort has only one result |
| UnfOrder.OnlyOneForm | src/main/resources/gems/unf_ext-0.0.7.2/ext/unf_ext/unf/normalizer.hh:90-93 | Whatever order reorderable pairs are exchanged in, if none is left the result is the canonical ordering |
| UnfOrder.OrderReached | src/main/resources/gems/unf_ext-0.0.7.2/ext/unf_ext/unf/normalizer.hh:90-93 | The canonical ordering is reached by such exchanges |
| UnfOrder.OrderSplits | src/main/resources/gems/unf_ext-0.0.7.2/ext/unf_ext/unf/normalizer.hh:43-57 | Nothing moves across a starter |
| UnfTrie.FindValue | src/main/resources/gems/unf_ext-0.0.7.2/ext/unf_ext/unf/trie/searcher.hh:15-28 | The value of the character at the place, or the default |
| UnfTrie.ReadKey | src/main/resources/gems/unf_ext-0.0.7.2/ext/unf_ext/unf/trie/searcher.hh:50-72 | The inner loop reads a key to its end with its value, or stops inside a character that is no key |
| UnfTrie.NextStart | src/main/resources/gems/unf_ext-0.0.7.2/ext/unf_ext/unf/util.hh:13-16 | From inside a character the next start point is the next character |
| UnfTrie.TrieExists | src/main/resources/gems/unf_ext-0.0.7.2/ext/unf_ext/unf/trie/searcher.hh:8-34 | The assumptions about the node array can be met: any character of two bytes can be the one key of a trie |
| UnfNormalizer.TablesExist | src/main/resources/gems/unf_ext-0.0.7.2/ext/unf_ext/unf/trie/searcher.hh:36-128 | The assumptions about all tables together can be met, with a character that decomposes and one that has a class |
| DebaseQueue.Locked.IsIn | src/main/resources/gems/debase-0.2.2.beta9/ext/locker.c:5-17 | Whether the thread is in the queue before its last place |
| DebaseQueue.Locked.Add | src/main/resources/gems/debase-0.2.2.beta9/ext/locker.c:19-34 | The list becomes the queue with the thread at its end, unless it was found |
| DebaseQueue.Locked.Remove | src/main/resources/gems/debase-0.2.2.beta9/ext/locker.c:36-52 | The list becomes the queue without its first thread, which is returned; head is null exactly when tail is |
| DebaseQueue.RunKeepsAdjacent | src/main/resources/gems/debase-0.2.2.beta9/ext/locker.c:5-52 | After any run of operations a thread is in the queue at most twice, and then in adjacent places |
| DebaseLock.RunSafe | src/main/resources/gems/debase-0.2.2.beta9/ext/debase_internals.c:154-214 | In every run, whoever wakes threads: at most one thread is in a handler and it is the locker, and every stopped thread is in the queue |
| DebaseLock.NestedEventDoesNothing | src/main/resources/gems/debase-0.2.2.beta9/ext/debase_internals.c:200-201 | In every run an event on the thread in the handler changes nothing |
| DebaseLock.RunOrderly | src/main/resources/gems/debase-0.2.2.beta9/ext/debase_internals.c:154-214 | If only cleanup wakes threads, the stopped threads are exactly the queue without duplicates, and a free lock with a non-empty queue implies a woken thread that has not looked yet |
| DebaseLock.WokenInTurn | src/main/resources/gems/debase-0.2.2.beta9/ext/debase_internals.c:154-195 | If only cleanup wakes threads: in every run the thread at place i of the queue moves up by one place with each cleanup and is woken by the cleanup after the i-th |
| DebaseLock.OvertakenAgain | src/main/resources/gems/debase-0.2.2.beta9/ext/debase_internals.c:174-195 | For every n a run in which a thread is woken n times, finds the lock taken each time and waits again |
| DebaseLock.StepWatched | src/main/resources/gems/debase-0.2.2.beta9/ext/debase_internals.c:154-214 | Whoever wakes threads: a step leads to somebody stopped with the lock free and nobody woken exactly if it is a cleanup that takes a thread from the queue which is no longer stopped, with others stopped and nobody woken |
| DebaseLock.RunWatched | src/main/resources/gems/debase-0.2.2.beta9/ext/debase_internals.c:154-214 | Over every run, whoever wakes threads: nobody is ever stranded if and only if no step of it is such a cleanup |
| DebaseLock.SpuriousWakeStrands | src/main/resources/gems/debase-0.2.2.beta9/ext/debase_internals.c:154-214 | A run that leaves a thread stopped with the lock free and nobody woken, because somebody else woke another |
| DebaseContext.StepOverExact | src/main/resources/gems/debase-0.2.2.beta9/ext/debase_internals.c:314-387 | After a step-over of n lines the thread stops at the first accepted line event below the destination frame, or the n-th at it on a line other than the last stop, whichever comes first, and at no other event |
| DebaseContext.StepOverStarts | src/main/resources/gems/debase-0.2.2.beta9/ext/context.c:302-330 | The command leads from a quiet context to a pending step-over of its argument, and while frames are counted its range test refuses nothing |
| DebaseContext.RangeTestsExactly | src/main/resources/gems/debase-0.2.2.beta9/ext/context.c:302-346 | The range tests of the two commands refuse some frame if and only if the counted stack size is negative |
| DebaseContext.Context.CheckLine | src/main/resources/gems/debase-0.2.2.beta9/ext/debase_internals.c:337-372 | The counters after a line event, and whether the thread stops |
| DebaseContext.Context.CheckReturn | src/main/resources/gems/debase-0.2.2.beta9/ext/debase_internals.c:398-407 | The counters after a return event |
| DebaseContext.Context.CheckCall | src/main/resources/gems/debase-0.2.2.beta9/ext/debase_internals.c:423-424 | The counters after a call event |
| DebaseContext.Context.StepOver | src/main/resources/gems/debase-0.2.2.beta9/ext/context.c:302-330 | The context after the command, also where it is refused |
| DebaseContext.Context.StopNext | src/main/resources/gems/debase-0.2.2.beta9/ext/context.c:282-299 | The context after the command, unchanged where it is refused |
| DebaseContext.Context.SetStopFrame | src/main/resources/gems/debase-0.2.2.beta9/ext/context.c:333-346 | The context after the command, unchanged where it is refused |
| DebaseContext.Context.constructor | src/main/resources/gems/debase-0.2.2.beta9/ext/context.c:134-154 | A new context has nothing pending |
| DebaseContext.Context.ResetSteppingStopPoints | src/main/resources/gems/debase-0.2.2.beta9/ext/context.c:12-17 | Nothing of a step command is left |
| DebaseTracing.StepExact | src/main/resources/gems/debase-0.2.2.beta9/ext/debase_internals.c:83-140 | From a state in which tracing is off only with nothing pending, every step leads to such a state, except that a waiting line or return event is handled with tracing off at the depth of an armed stop_frame, which never does |
| DebaseTracing.RunExact | src/main/resources/gems/debase-0.2.2.beta9/ext/debase_internals.c:83-140 | Over every run: tracing off always implies no breakpoints, no catchpoints and only quiet contexts, if and only if no stop_frame is hit with tracing off |
| DebaseTracing.RunSettledWithoutStopFrame | src/main/resources/gems/debase-0.2.2.beta9/ext/debase_internals.c:83-140 | In every run without stop_frame commands tracing is off only when nothing is pending |
| DebaseTracing.StopFrameUnsettles | src/main/resources/gems/debase-0.2.2.beta9/ext/debase_internals.c:83-140 | A run with a stop_frame that ends with tracing off and a stop pending |
| DebaseTracing.RunLockSafe | src/main/resources/gems/debase-0.2.2.beta9/ext/debase_internals.c:154-214 | Through every run of the whole system at most one thread is in a handler, the locker; the stopped threads are exactly the queue without duplicates; and a free lock with a non-empty queue implies a woken thread that has not looked yet |
| DebaseTracing.RunNeverStuck | src/main/resources/gems/debase-0.2.2.beta9/ext/debase_internals.c:154-214 | In no run are the threads all waiting for one another: while one waits, the callback that holds the lock can return or a woken thread can look at the lock |

## Left out

- Floats: parsed and printed by Ruby; the model keeps their text, and the round trip excludes them.
- Unpaired surrogates in unescaping: `Unescape` follows the code, but no meaning is claimed for the result.
- Error messages, line numbers and the positions in them.
- create_additions, json_create, match_string, symbolize_names, object_class and array_class, and encodings other than UTF-8: Ruby runtime calls.
- Option setters of the generator state: an option is bytes or missing; that an empty string is stored as a missing option, and that what follows a first NUL byte in an option is not copied (fstrndup), is up to the caller of the model.
- JsonGenerator.State: the delimiter buffers are byte sequences, not FBuffer objects of their own.
- JsonMachines.ParseValue: the states behind state 29 are not modelled, since the machine leaves at once when it reaches that state.
- The buffer that number texts are copied to before conversion; `IntAt` is the value of the digits in place.
- Java Parser.java beyond the number scanners, and Generator.java: they would repeat the C core.
- JsonDecoder.StringDecoder: the field surrogatePairStart, which only the message of an exception reads.
- A string encoder or decoder of the Java extension that is used again after an exception inside a plain sequence: the sequence is then still pending, since init does not clear it.
- The pure-Ruby parser and generator, which are no reference for the C core.
- UnfNormalizer.Normalizer.DecomposeOne: the segment at the end of the buffer is sorted as an array of its own and put back, instead of inside the buffer.
- UNF composition (compose, compose_one, CharStreamForComposition), which rests on composition tables, and source strings that are not well-formed UTF-8.
- The contents of the unf_ext tables: that they meet the stated assumptions is not proved.
- fill_stack, clear_stack and get_frame_no, breakpoint matching, file filtering, removal of dead threads' contexts and the VM's frame arithmetic: a stop reports whether a breakpoint or catchpoint matched as an input.
- Termination of waiting: no fairness is assumed, so nothing is said about a stopped thread being run eventually.
- The cluster's own Java, JavaScript and Vagrant code, and the other bundled gems: I/O, field copying or string glue.
