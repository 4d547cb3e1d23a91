# Rover stack: models and proofs

A Dafny 4.11 verification project for two groups of code in the rover's workspace: the JSON
library that the LiDAR driver parses its configuration with, and the concurrent and stateful
robot code around it.  `dafny verify dfyconfig.toml` checks everything.

Code that works step by step is a class or a method with loops here too, and each such method is
proved against a function of its inputs; the properties are then proved about those functions.

## The JSON library (rapidjson, as vendored by the driver)

- `Bytes`, `Json`, `Lexer`, `Grammar` say what the reader does as functions: white space and
  comments, literals, strings, numbers, and the two parsers, recursive descent and the pushdown
  automaton with its stack of states and counts.  `Reader` is the reader as it runs, both parsers,
  over a text, a stack and a parse result.  The handler may refuse any event, depending on all it
  has been sent.
- `Refinement` proves the two parsers equal, and `Brackets` that the automaton's stack always
  encodes the open brackets, their kinds and their counts, and that an accepted stream is nested right.  `Trees` says what a well-nested event stream is.
- `Syntax` is the grammar of RFC 8259 as concrete syntax trees, with comments and trailing commas
  besides, written independently of the reader, its terminals in `Abnf`; `Acceptance` proves that
  the reader accepts exactly the texts of these trees and reports what they mean, and `Errors` that
  every refusal has the reason it gives at the place it gives.
- `Writer` has the compact and the pretty writer.  `Layout` is what they print, laid out from the
  tree alone, and `Streams` says which calls they take; `RoundTrip` proves that what they print is
  a text of the grammar, hence read back as it was.  `Document` builds values from events and
  replays values as events.
- `Utf8` and `Utf8Stream` are the UTF-8 codec against the grammar of section 4 of RFC 3629.
- `Pointer` and `PointerObject` are JSON Pointers (RFC 6901) as strings and URI fragments, the
  second with the name buffer and token array; `PointerSyntax` is the grammar of both forms, and
  what is read, refused and written measured against it.
- `Bits`, `Words` and `BigInteger` are the multi-word integers, with the 64x64 to 128 bit product
  from 32-bit halves.
- `Allocators` and `PoolAllocator` are the memory pool, on values and as a linked list of chunks;
  sizes are 64 bits and wrap around.

## The robot code

- `Ldq` is the per-lidar ring buffer with its two free-running 32-bit indices.
- `PubHandler` decodes packets into a buffer per lidar and cuts frames from them; `Lds` pushes
  frames into the rings, signals a semaphore, and drains the rings on the other side.
- `Wakeup` is the wakeup protocol between producer and consumer as interleaved steps over
  unbounded queues.  `Pipeline` is the same two threads with one shared access to a step, the
  rings in place of the queues; it refines `Wakeup` and adds the conservation of points.
  `Threads` shows that the methods of `PubHandler` and `Lds` take steps of `Pipeline`.
- `LidarConfig` reads the settings of a lidar from its entry in the configuration file; `Handshake`
  is their way to the lidar: requests, answers in any order, timeouts, retries.
- `Waypoints` and `WaypointManager` are waypoints tagged in submaps whose poses loop closures
  correct.  Poses are elements of an abstract group.
- `Route` and `Mission` are the mission driver: one route goal through all waypoints, and the
  bookkeeping of goals across timeouts, late answers, preemption and cleanup.

## Where the code is not what it seems

The model follows the code.  These are the places where the code and its documentation, or a
natural reading of it, part; each has its exact condition below.

- The reader's two parsers agree on results, events, error codes and offsets, but for a text that
  begins with `]`, `}`, `,` or `:`, which one calls an invalid value and the other an empty
  document (`Refinement.IterativeRefinesRecursive`), and for the offset given when the handler
  refuses an event.
- The reader is stricter than the grammar of RFC 8259 in one place: a `\u` escape that is a leading
  surrogate must be followed by a trailing one.  A lone trailing one is taken and encoded as it
  is.  Without validation any byte from 0x20 on is taken for a character.
- The comment in `internal/biginteger.h` promises 54 words; the array has 416, because the number
  of bits is divided by the bytes in a word.
- The assertion of `BigInteger`'s shift lets a shift by bits write one word past the array: with 416
  words in use, a shift by one writes `digits_[416]` (`BigInteger.ShiftOverrunExample`).
  `BigInteger.ShiftIsInBoundsIff` is the exact condition.
- `BigInteger::Difference` loses a borrow that meets a word of all ones, and then leaves a number
  that is too large; `Words.KeepsBorrows` is the exact condition for it to be right.
- `RoundupPowerOf2` rounds sizes above 2^31 down to 2^31.
- A size near 2^64 wraps around in the memory pool; `Allocators.NoWrap` is the exact condition for
  the pool to stay sound, and `Allocators.RoundingWrapExample`, `Allocators.RoomWrapExample` and
  `Allocators.ChunkWrapExample` are requests that break it.
- In `go_through`, a refresh that falls due after a report of no pose remaining, and before the result,
  takes the maximum of nothing and raises `ValueError`; `Route.RideFailsIff` is the exact condition.
- An interrupt while a goal request is being waited for, or between taking a late answer off the
  list and cancelling it, loses a goal (`Mission.LostGoalExample`); `Mission.Exposed` is the exact
  condition, for every mission (`Mission.InterruptedMissionIsSafeIff`).
- A point cloud packet with no points makes the driver divide by zero; `PubHandler.PubHandler.OnPointCloud`
  queues a packet exactly when there is a point.
- A setting in the configuration file is kept in eight bits, where -1 stands for a key that is not
  there: a value of 255 modulo 256 is never asked for (`LidarConfig.KeyIsLostIff`), and a blind spot
  above 127, documented to go up to 200 cm, is asked for as a negative number
  (`LidarConfig.BlindSpotTurnsNegative`).
- A lidar counts as sampling too early if an answer is handled while the settings are still being
  asked for; one lock around all requests prevents it (`Handshake.WithoutLock`).

## Model

| member | source | states |
|---|---|---|
| `Refinement.IterativeRefinesRecursive` | src/livox_ros_driver2/3rdparty/rapidjson/reader.h:2401-2433 | for every text, flags and handler: the automaton gives the same result, events, counts and error code as recursive descent, and the same offset unless the handler refused; but for a text that begins with a closer, comma or colon, where both refuse at the same place under different names |
| `Refinement.SimulateValue` | src/livox_ros_driver2/3rdparty/rapidjson/reader.h:2192-2350 | from any state where a value may begin, under any stack, the automaton behaves as `ParseValue` followed by the rest of its own loop |
| `Refinement.SimulateMembers` | src/livox_ros_driver2/3rdparty/rapidjson/reader.h:797-865 | the count kept on the stack is the number of members before the last comma, so the automaton ends an object as the recursive loop does, however many members there are |
| `Brackets.TransitKeepsBrackets` | src/livox_ros_driver2/3rdparty/rapidjson/reader.h:2192-2350 | every step that does not stop keeps the stack an encoding of the open brackets of the events sent so far, each with its kind, the values or members completed in it (the count on the stack, one more after a value and before the comma, both in 32 bits) and whether a name waits for its value |
| `Brackets.ParsedStreamIsNested` | src/livox_ros_driver2/3rdparty/rapidjson/reader.h:2401-2433 | for texts of any length, all flags and any handler: the events of an accepted text are one complete value with no bracket left open, every bracket is closed by its own kind with the number of its values modulo 2^32, and names and values alternate; with either parser |
| `Acceptance.AcceptsExactlyTheGrammar` | src/livox_ros_driver2/3rdparty/rapidjson/reader.h:615-646 | whatever the flags: both parsers accept a text exactly when it is one of RFC 8259, with comments and trailing commas where they are allowed and no number too big for a double; or, told to stop when done, exactly when a value begins it |
| `Acceptance.EveryTextIsAccepted` | src/livox_ros_driver2/3rdparty/rapidjson/reader.h:797-913 | every text of the grammar, with any white space and comments, is accepted by both parsers and reported as exactly the events its syntax tree means, with the counts in 32 bits |
| `Acceptance.EveryFrontIsAccepted` | src/livox_ros_driver2/3rdparty/rapidjson/reader.h:630-640 | a reader told to stop when done takes any value that begins the text, to its last byte and no further; a number as far as it goes |
| `Acceptance.OnlyTextsAreAccepted` | src/livox_ros_driver2/3rdparty/rapidjson/reader.h:797-913 | conversely, whatever the flags and the handler, what is accepted has a syntax tree that spells it, up to the end or first NUL or, if so told, the end of the value, and the events sent are what the tree means |
| `Acceptance.SkipFinds` | src/livox_ros_driver2/3rdparty/rapidjson/reader.h:770-795 | what is skipped between tokens is white space and, where allowed, comments: each between its marks, the closing one for the first time, or to the end of its line; only at the end of the text may that end be missing |
| `Acceptance.SkipsTo` | src/livox_ros_driver2/3rdparty/rapidjson/reader.h:770-795 | and any such gap is skipped, up to what is neither |
| `Acceptance.MeaningIsUnique` | src/livox_ros_driver2/3rdparty/rapidjson/reader.h:615-646 | two syntax trees of one text mean the same events: the grammar is unambiguous |
| `Acceptance.ReadCharacter` | src/livox_ros_driver2/3rdparty/rapidjson/reader.h:1058-1129 | a character written as it is, by a letter escape, a `\u` escape or a surrogate pair is read as the UTF-8 bytes of what it stands for |
| `Acceptance.QuotedFound` | src/livox_ros_driver2/3rdparty/rapidjson/reader.h:1021-1051 | a string the reader accepts is made of such characters and nothing else, and read as their values |
| `Acceptance.ReadNumeral` | src/livox_ros_driver2/3rdparty/rapidjson/reader.h:1584-1868 | a numeral of section 6 of RFC 8259, of any length, is read whole; without fraction and exponent it is reported exactly, in the narrowest of the two widths for its sign, and as a double only outside [-2^63, 2^64-1] |
| `Acceptance.NumeralFound` | src/livox_ros_driver2/3rdparty/rapidjson/reader.h:1584-1868 | a number the reader accepts is such a numeral: no leading zero, at least one digit in each part, and nothing after it that would go on it |
| `Abnf.HexDigitsAgree` | src/livox_ros_driver2/3rdparty/rapidjson/reader.h:974-982 | the reader and the pointer take for hexadecimal digits the sixteen of the standard in both cases, each at its value |
| `Abnf.DecimalIsWhole` | src/livox_ros_driver2/3rdparty/rapidjson/reader.h:1606-1636 | the number the reader makes of digits is the one they stand for, by the table of the standard |
| `Errors.EveryFailureHasAReason` | src/livox_ros_driver2/3rdparty/rapidjson/reader.h:615-646 | whatever the text, flags and handler: the error code and offset of either parser say truly what is there or missing: which delimiter, that the text is empty or goes on after a whole value, that a value or comment fails in the way that belongs to its code, or that the handler refused (recursive descent then points past the token, to the beginning of a number, or to a bracket after a trailing comma); but for a text that begins with a stray closer, comma or colon, which the automaton calls empty |
| `Errors.ScalarRefused` | src/livox_ros_driver2/3rdparty/rapidjson/reader.h:1872-1895 | a word is refused at the first letter that is not there, a string at the first place where no character and no closing quote is, a number where a digit is missing or, whole, for its size |
| `Errors.StringRefused` | src/livox_ros_driver2/3rdparty/rapidjson/reader.h:1058-1129 | a string that is refused is made of characters of the grammar up to the offset reported, and there: no closing quote before the end; a control character or no character of UTF-8; no escape; not four hexadecimal digits; or a leading surrogate without its trailing one; as the code says |
| `Errors.NumberRefused` | src/livox_ros_driver2/3rdparty/rapidjson/reader.h:1584-1868 | a number is refused exactly where its first digit, or one after its point or its exponent mark and sign, is missing, or at its beginning if it is a whole numeral too big for a double |
| `Errors.GapRefused` | src/livox_ros_driver2/3rdparty/rapidjson/reader.h:770-795 | between tokens only a comment is refused: after a whole gap, one of neither kind, at its second byte, or one not closed, at the end of the text |
| `Trees.ParseSendsOneTree` | src/livox_ros_driver2/3rdparty/rapidjson/reader.h:615-646 | whatever the flags and handler, a text below 4 GiB that parses sends the well-nested stream of one tree |
| `Reader.GenericReader.Parse` | src/livox_ros_driver2/3rdparty/rapidjson/reader.h:615-646 | the recursive parser, loops and recursion over one moving position, gives the result and events of its function |
| `Reader.GenericReader.IterativeParse` | src/livox_ros_driver2/3rdparty/rapidjson/reader.h:2401-2433 | so does the automaton with its explicit stack |
| `Reader.GenericReader.Transit` | src/livox_ros_driver2/3rdparty/rapidjson/reader.h:2192-2350 | one transition: the new state, stack, position and events, or the error state with either the error already set or what `HandleError` will report |
| `Reader.GenericReader.HandleError` | src/livox_ros_driver2/3rdparty/rapidjson/reader.h:2353-2388 | an error already set is kept; otherwise the code depends on the state left |
| `Reader.GenericReader.ParseObject` | src/livox_ros_driver2/3rdparty/rapidjson/reader.h:797-865 | the object loop from the opening brace to its end |
| `Reader.GenericReader.ParseArray` | src/livox_ros_driver2/3rdparty/rapidjson/reader.h:868-913 | the array loop from the opening bracket to its end |
| `Reader.GenericReader.ParseStringToStream` | src/livox_ros_driver2/3rdparty/rapidjson/reader.h:1058-1129 | the string loop, with its escape table, surrogate pairs and optional validation, and the code and offset of each error |
| `Reader.GenericReader.ParseHex4` | src/livox_ros_driver2/3rdparty/rapidjson/reader.h:967-987 | four hexadecimal digits and their number, or the error at the escape |
| `Reader.GenericReader.Accumulate32` | src/livox_ros_driver2/3rdparty/rapidjson/reader.h:1606-1636 | the 32-bit accumulator never overflows: it holds the number so far, and stops at the end or where the next digit would exceed the limit of the sign |
| `Reader.GenericReader.Accumulate64` | src/livox_ros_driver2/3rdparty/rapidjson/reader.h:1666-1701 | the same for 64 bits, taking over from 32; what it holds no longer fits 32 bits |
| `Reader.GenericReader.ParseInteger` | src/livox_ros_driver2/3rdparty/rapidjson/reader.h:1598-1701 | which accumulator is used depends on the value of the literal alone, and what it holds is that value |
| `Reader.GenericReader.FinishNumber` | src/livox_ros_driver2/3rdparty/rapidjson/reader.h:1840-1868 | two's complement negation in 32 or 64 bits gives the exact negative number |
| `Reader.GenericReader.SkipWhitespaceAndComments` | src/livox_ros_driver2/3rdparty/rapidjson/reader.h:770-795 | white space and comments, or the offset of a comment that is not closed |
| `Reader.GenericReader.SkipWhitespace` | src/livox_ros_driver2/3rdparty/rapidjson/reader.h:290-296 | stops at the first byte that is none of the four |
| `Reader.GenericReader.SkipBlockComment` | src/livox_ros_driver2/3rdparty/rapidjson/reader.h:775-784 | past the first `*/`, or the offset of the end if there is none |
| `Reader.GenericReader.SkipLineComment` | src/livox_ros_driver2/3rdparty/rapidjson/reader.h:785-787 | past the line break, or to the end |
| `Reader.GenericReader.ParseNull` | src/livox_ros_driver2/3rdparty/rapidjson/reader.h:916-926 | the literal and its event, or the offset of the first byte that differs |
| `Reader.GenericReader.ParseTrue` | src/livox_ros_driver2/3rdparty/rapidjson/reader.h:929-939 | the same |
| `Reader.GenericReader.ParseFalse` | src/livox_ros_driver2/3rdparty/rapidjson/reader.h:942-952 | the same |
| `Reader.GenericReader.ParseUnicodeEscape` | src/livox_ros_driver2/3rdparty/rapidjson/reader.h:1089-1109 | a `\u` escape with its second half where it needs one, encoded, or one of two errors at the backslash |
| `Reader.GenericReader.ParseString` | src/livox_ros_driver2/3rdparty/rapidjson/reader.h:1021-1051 | the string, sent as a key or a value |
| `Reader.GenericReader.ParseFraction` | src/livox_ros_driver2/3rdparty/rapidjson/reader.h:1713-1753 | a dot and digits, or the error at the missing digit |
| `Reader.GenericReader.ParseExponent` | src/livox_ros_driver2/3rdparty/rapidjson/reader.h:1756-1832 | a mark, a sign and digits, or the error at the missing digit |
| `Reader.GenericReader.ParseNumber` | src/livox_ros_driver2/3rdparty/rapidjson/reader.h:1584-1868 | the number and its event, or the code and offset of the error |
| `Reader.GenericReader.ParseValue` | src/livox_ros_driver2/3rdparty/rapidjson/reader.h:1872-1895 | one value, whatever it begins with |
| `Reader.GenericReader.ParseMember` | src/livox_ros_driver2/3rdparty/rapidjson/reader.h:815-833 | a name, a colon and a value, or which is missing |
| `Reader.GenericReader.AfterMember` | src/livox_ros_driver2/3rdparty/rapidjson/reader.h:833-864 | a comma and more to come, or the end with its 32-bit count |
| `Reader.GenericReader.AfterElement` | src/livox_ros_driver2/3rdparty/rapidjson/reader.h:890-911 | the same for an array |
| `Reader.GenericReader.OpenFrame` | src/livox_ros_driver2/3rdparty/rapidjson/reader.h:2203-2230 | pushes the state to return to and a count of zero, and reports the bracket |
| `Reader.GenericReader.CloseFrame` | src/livox_ros_driver2/3rdparty/rapidjson/reader.h:2269-2325 | pops the count and the state, and reports the count with the last value in it |
| `Reader.GenericReader.CountComma` | src/livox_ros_driver2/3rdparty/rapidjson/reader.h:2262-2267 | counts on the stack in place, in 32 bits |
| `RoundTrip.PrintThenParse` | src/livox_ros_driver2/3rdparty/rapidjson/writer.h:200-297 | either writer, in any format, sent a tree of null, booleans, 64-bit integers, strings (any bytes, or valid UTF-8 when the reader validates), arrays and objects, prints a text that both parsers turn back into the same tree |
| `RoundTrip.DocumentRoundTrip` | src/livox_ros_driver2/3rdparty/rapidjson/prettywriter.h:180-233 | a document printed and parsed again is the same document, type flags included, so indentation never changes meaning |
| `RoundTrip.PrintedTree` | src/livox_ros_driver2/3rdparty/rapidjson/prettywriter.h:263-311 | what a writer prints for a tree, in any format and at any depth, is the text of a syntax tree that means the tree |
| `RoundTrip.PrintedString` | src/livox_ros_driver2/3rdparty/rapidjson/writer.h:437-520 | a printed string is a string of the grammar whose characters stand for the very bytes |
| `Writer.WriteWholeTree` | src/livox_ros_driver2/3rdparty/rapidjson/writer.h:255-297 | a fresh writer sent the stream of a tree meets none of its assertions, prints the text of the tree and has closed all it opened |
| `Writer.WriteTree` | src/livox_ros_driver2/3rdparty/rapidjson/writer.h:560-579 | in any state where a value may come, the stream of a tree adds one value: the prefix due there, then the tree's text at that depth, and the level stack is as after one value |
| `Layout.TreeIsPrinted` | src/livox_ros_driver2/3rdparty/rapidjson/prettywriter.h:180-311 | what is printed for a tree at any depth, in every format, byte by byte: brackets around items that are joined by `,` or, in single-line arrays, `, `; each on its own line, indented by depth times width, unless compact or single-line; names and values joined by `:` or `: `; nothing in an empty bracket |
| `Layout.StringIsPrinted` | src/livox_ros_driver2/3rdparty/rapidjson/writer.h:437-520 | how each byte of a string is printed: seven by a letter escape, the other control characters as `\u00XY` in upper case, all others as they are |
| `Layout.IntegerIsPrinted` | src/livox_ros_driver2/3rdparty/rapidjson/writer.h:367-401 | an integer is printed as its decimal numeral, with a minus sign if negative and no leading zero |
| `Streams.TakesExactlyTrees` | src/livox_ros_driver2/3rdparty/rapidjson/writer.h:255-297 | the assertions of a fresh writer hold, and it is complete at the end, exactly when the calls spell out one tree (any string for a name, the counts of the ends ignored); and what it has printed is then that tree laid out |
| `Writer.StreamWriter.WriteString` | src/livox_ros_driver2/3rdparty/rapidjson/writer.h:437-520 | the loop over the bytes writes the quoted string, each byte escaped as its table says |
| `Writer.StreamWriter.PlainPrefix` | src/livox_ros_driver2/3rdparty/rapidjson/writer.h:560-579 | the comma, colon or nothing due before a value, and the count bumped, wherever no assertion fails |
| `Writer.StreamWriter.PrettyPrefix` | src/livox_ros_driver2/3rdparty/rapidjson/prettywriter.h:263-303 | the same with line breaks, indentation and single-line arrays |
| `Writer.StreamWriter.WriteIndent` | src/livox_ros_driver2/3rdparty/rapidjson/prettywriter.h:305-311 | the indent character once for each level and width |
| `Writer.StreamWriter.Scalar` | src/livox_ros_driver2/3rdparty/rapidjson/writer.h:200-247 | prefix and text of a scalar |
| `Writer.StreamWriter.Key` | src/livox_ros_driver2/3rdparty/rapidjson/writer.h:261-263 | prefix and text of a name |
| `Writer.StreamWriter.StartObject` | src/livox_ros_driver2/3rdparty/rapidjson/writer.h:255-259 | prefix, brace and a new level |
| `Writer.StreamWriter.StartArray` | src/livox_ros_driver2/3rdparty/rapidjson/writer.h:284-288 | prefix, bracket and a new level |
| `Writer.StreamWriter.EndObject` | src/livox_ros_driver2/3rdparty/rapidjson/prettywriter.h:180-205 | pops the level and closes the brace, on a line of its own unless the object is empty |
| `Writer.StreamWriter.EndArray` | src/livox_ros_driver2/3rdparty/rapidjson/prettywriter.h:214-233 | pops the level and closes the bracket, on a line of its own unless the array is empty or single-line |
| `Document.ConstructorsSetTheFlags` | src/livox_ros_driver2/3rdparty/rapidjson/document.h:858-899 | each of the four integer constructors sets exactly the flags of the types that can hold its argument, and stores its 64-bit word |
| `Document.FlagsDependOnTheNumberOnly` | src/livox_ros_driver2/3rdparty/rapidjson/document.h:858-899 | two constructors given the same number make the same value |
| `Document.NumberEventCarriesTheNumber` | src/livox_ros_driver2/3rdparty/rapidjson/document.h:2318-2330 | the event `Accept` sends for an integer is the first of `Int`, `Uint`, `Int64` and `Uint64` whose type holds it, carries it, and makes the same value again |
| `Document.WellNestedLeavesOneValue` | src/livox_ros_driver2/3rdparty/rapidjson/document.h:2982-3001 | every well-nested event stream leaves exactly one value on the build stack, that of its tree |
| `Document.BuildTree` | src/livox_ros_driver2/3rdparty/rapidjson/document.h:2926-3001 | and does so on top of any stack, leaving what is below untouched |
| `Document.ParsedTextLeavesOneValue` | src/livox_ros_driver2/3rdparty/rapidjson/document.h:2738-2750 | the assertion of `ParseStream`: a text below 4 GiB that parses leaves exactly one value |
| `Document.ReplayRebuildsTheValue` | src/livox_ros_driver2/3rdparty/rapidjson/document.h:2286-2331 | replaying the `Accept` events of any value into an empty document rebuilds the value, flags and all |
| `Document.GenericDocument.Populate` | src/livox_ros_driver2/3rdparty/rapidjson/document.h:2716-2725 | the handler calls of a well-nested stream leave the root and an empty stack |
| `Document.GenericDocument.EndObject` | src/livox_ros_driver2/3rdparty/rapidjson/document.h:2982-2988 | pops the members and puts the object in their place |
| `Document.GenericDocument.EndArray` | src/livox_ros_driver2/3rdparty/rapidjson/document.h:2995-3001 | pops the elements and puts the array in their place |
| `Document.GenericDocument.Scalar` | src/livox_ros_driver2/3rdparty/rapidjson/document.h:2926-2971 | pushes the value of a scalar event |
| `Document.GenericDocument.Key` | src/livox_ros_driver2/3rdparty/rapidjson/document.h:2978-2980 | pushes a name as a string |
| `Document.GenericDocument.StartObject` | src/livox_ros_driver2/3rdparty/rapidjson/document.h:2973-2976 | pushes an empty object for its members to be put in |
| `Document.GenericDocument.StartArray` | src/livox_ros_driver2/3rdparty/rapidjson/document.h:2990-2993 | pushes an empty array for its elements to be put in |
| `Utf8.ValidateAllIsRfc3629` | src/livox_ros_driver2/3rdparty/rapidjson/encodings.h:213-266 | repeated `Validate` accepts exactly the concatenations of well-formed sequences of section 4 of RFC 3629 |
| `Utf8.DecodeAllIsTheInverseOfEncodeAll` | src/livox_ros_driver2/3rdparty/rapidjson/encodings.h:147-210 | repeated `Decode` succeeds on exactly those strings, and returns the one sequence of scalar values that `Encode` turns into the string |
| `Utf8.ValidateSound` | src/livox_ros_driver2/3rdparty/rapidjson/encodings.h:213-298 | what one `Validate` accepts is one well-formed character, no more and no less: no overlong form, no surrogate, nothing above U+10FFFF |
| `Utf8.ValidateComplete` | src/livox_ros_driver2/3rdparty/rapidjson/encodings.h:213-298 | every well-formed character is accepted, and just its bytes consumed |
| `Utf8.ReadsWhatLeadAnnounces` | src/livox_ros_driver2/3rdparty/rapidjson/encodings.h:147-266 | accepted or not, as many bytes are consumed as the lead byte announces, or up to the end of the text |
| `Utf8.DecodeThenEncode` | src/livox_ros_driver2/3rdparty/rapidjson/encodings.h:147-210 | a decoded code point is a scalar value that encodes to the very bytes read |
| `Utf8.EncodeThenDecode` | src/livox_ros_driver2/3rdparty/rapidjson/encodings.h:107-125 | what `Encode` writes for a scalar value is well formed and decodes to it |
| `Utf8Stream.Validate` | src/livox_ros_driver2/3rdparty/rapidjson/encodings.h:213-266 | the validator over two streams: its verdict, how far it reads even after a failure, and that it copies just the character when it accepts |
| `Utf8Stream.Decode` | src/livox_ros_driver2/3rdparty/rapidjson/encodings.h:147-210 | the decoder over a stream: its verdict, the code point and how far it reads, failures included |
| `Utf8Stream.Encode` | src/livox_ros_driver2/3rdparty/rapidjson/encodings.h:107-125 | the encoder appends the one to four bytes of the code point |
| `Pointer.StringFormRoundTrip` | src/livox_ros_driver2/3rdparty/rapidjson/pointer.h:1151-1185 | the string form of any token list, whatever bytes its names hold, parses back to the same names |
| `Pointer.StringFormIsExact` | src/livox_ros_driver2/3rdparty/rapidjson/pointer.h:1013-1142 | a string that does not begin with `#` is read as given names exactly when it is what is written for them |
| `Pointer.FragmentRoundTrip` | src/livox_ros_driver2/3rdparty/rapidjson/pointer.h:1151-1252 | the URI fragment form exists exactly when all names are valid UTF-8, and then parses back to them |
| `Pointer.FragmentIsNormalised` | src/livox_ros_driver2/3rdparty/rapidjson/pointer.h:1065-1090 | whatever a fragment is read as is valid UTF-8, so it can be written again, and is then read as the same names |
| `PointerSyntax.ReadsExactlyPointers` | src/livox_ros_driver2/3rdparty/rapidjson/pointer.h:1013-1142 | `Parse` reads a string or a fragment as given names exactly when sections 3 to 6 of RFC 6901 spell them so: characters as they are (in a fragment only the unreserved ones), any character of UTF-8 in triplets of either case, `~0` and `~1`, whose tilde may be a triplet too |
| `PointerSyntax.RefusedWhereReadingStops` | src/livox_ros_driver2/3rdparty/rapidjson/pointer.h:1026-1142 | what is refused is a pointer up to a place where there is no `/`, or a piece that fails as the code says: a character that should have been encoded, no triplets of a character of UTF-8, or, at the offset just after a tilde, neither `0` nor `1` |
| `PointerSyntax.StringifyWrites` | src/livox_ros_driver2/3rdparty/rapidjson/pointer.h:1151-1185 | `Stringify`, byte by byte: `~0` and `~1` for `~` and `/`, in a fragment an upper case triplet for every other byte that is not unreserved, everything else as it is; and nothing exactly for a fragment with a name that is not UTF-8 |
| `PointerSyntax.TripletIsTaken` | src/livox_ros_driver2/3rdparty/rapidjson/pointer.h:1204-1229 | the stream yields a byte exactly for a triplet that spells it, in digits of either case |
| `PointerSyntax.CharIsTaken` | src/livox_ros_driver2/3rdparty/rapidjson/pointer.h:1065-1085 | a percent-encoded character is read exactly where triplets spell a character of section 4 of RFC 3629 |
| `PointerSyntax.UnreservedAgree` | src/livox_ros_driver2/3rdparty/rapidjson/pointer.h:996-1000 | the bytes that need no encoding are the unreserved characters of section 2.3 of RFC 3986 |
| `PointerObject.GenericPointer.Parse` | src/livox_ros_driver2/3rdparty/rapidjson/pointer.h:1013-1142 | on every input, valid or not, all writes stay within a name buffer of `length` bytes and an array of as many tokens as there are `/`; the names, or the error code and offset, are those of its function |
| `PointerObject.ReadToken` | src/livox_ros_driver2/3rdparty/rapidjson/pointer.h:1055-1106 | one reference token: what lies before it in the buffer is kept, and the bytes written never exceed the bytes read |
| `PointerObject.ValidatePercent` | src/livox_ros_driver2/3rdparty/rapidjson/pointer.h:1065-1085 | validating from the percent-decoding stream into the buffer: whether the character is well formed, how much was read and what was written, with room even for what is copied after a failure |
| `PointerObject.PercentDecodeStream.Take` | src/livox_ros_driver2/3rdparty/rapidjson/pointer.h:1187-1229 | a `%XY` triplet is one byte; anything else marks the stream invalid for good |
| `PointerObject.Stringify` | src/livox_ros_driver2/3rdparty/rapidjson/pointer.h:1151-1185 | the loops over names and bytes write the form, or give up on an ill-formed name |
| `PointerObject.ReadReference` | src/livox_ros_driver2/3rdparty/rapidjson/pointer.h:1049-1133 | one turn of the outer loop: one more token, its name in the buffer after the others and followed by a NUL, or the error |
| `PointerObject.EncodeBytes` | src/livox_ros_driver2/3rdparty/rapidjson/pointer.h:1237-1250 | three characters for each byte |
| `BigInteger.BigInteger.FromDecimals` | src/livox_ros_driver2/3rdparty/rapidjson/internal/biginteger.h:42-55 | a string of decimal digits of any length whose value fits with a spare word gives exactly that value, with no leading zero word |
| `BigInteger.BigInteger.AppendDecimal64` | src/livox_ros_driver2/3rdparty/rapidjson/internal/biginteger.h:229-237 | appends up to nineteen digits: the number times their power of ten, plus their value |
| `BigInteger.MulAdd64` | src/livox_ros_driver2/3rdparty/rapidjson/internal/biginteger.h:254-282 | the product from four 32-bit halves and its carries is exact: low and high word make a * b + k, for all words |
| `BigInteger.MulAdd32` | src/livox_ros_driver2/3rdparty/rapidjson/internal/biginteger.h:103-118 | one step of the multiplication by a 32-bit number is exact, and its carry stays below 2^32 |
| `BigInteger.BigInteger.Add` | src/livox_ros_driver2/3rdparty/rapidjson/internal/biginteger.h:71-84 | adding a word, with the carry through all words and into a new one, is exact |
| `BigInteger.BigInteger.Multiply64` | src/livox_ros_driver2/3rdparty/rapidjson/internal/biginteger.h:86-101 | multiplying by a word is exact wherever the product fits |
| `BigInteger.BigInteger.Multiply32` | src/livox_ros_driver2/3rdparty/rapidjson/internal/biginteger.h:103-123 | multiplying by a 32-bit number is exact wherever the product fits |
| `BigInteger.BigInteger.ShiftBy` | src/livox_ros_driver2/3rdparty/rapidjson/internal/biginteger.h:125-148 | under the assertion of the source alone: the words written are those of the loop, up to the first one outside the array; the shift goes through if and only if there is room, and then multiplies by the power of two and keeps the number normalised |
| `BigInteger.HighestShiftWrite` | src/livox_ros_driver2/3rdparty/rapidjson/internal/biginteger.h:132-145 | the highest index that the loop of a shift writes: the number of words plus the words shifted by, one less when no bits are left over |
| `BigInteger.ShiftIsInBoundsIff` | src/livox_ros_driver2/3rdparty/rapidjson/internal/biginteger.h:125-148 | every write of a shift lies in the array if and only if words and offset fit, with a word to spare unless the shift is by whole words |
| `BigInteger.ShiftOverrunExample` | src/livox_ros_driver2/3rdparty/rapidjson/internal/biginteger.h:130-138 | 416 words shifted by one bit pass the assertion and write the word after the array |
| `BigInteger.BigInteger.MultiplyPow5` | src/livox_ros_driver2/3rdparty/rapidjson/internal/biginteger.h:159-180 | multiplying by 5^exp in steps of 5^27, 5^13 and the table is exact |
| `BigInteger.BigInteger.Compare` | src/livox_ros_driver2/3rdparty/rapidjson/internal/biginteger.h:211-219 | compares as the numbers do |
| `BigInteger.BigInteger.Difference` | src/livox_ros_driver2/3rdparty/rapidjson/internal/biginteger.h:184-209 | the sign is right; the difference stored is never too small, and is exact if and only if no borrow is due into a word of all ones of the smaller number |
| `BigInteger.BigInteger.IsZero` | src/livox_ros_driver2/3rdparty/rapidjson/internal/biginteger.h:226-226 | true exactly for the number zero |
| `BigInteger.BigInteger.ParseUint64` | src/livox_ros_driver2/3rdparty/rapidjson/internal/biginteger.h:244-251 | nineteen digits never overflow 64 bits |
| `BigInteger.BigInteger.FromWord` | src/livox_ros_driver2/3rdparty/rapidjson/internal/biginteger.h:40-40 | a word as a number |
| `BigInteger.BigInteger.AssignWord` | src/livox_ros_driver2/3rdparty/rapidjson/internal/biginteger.h:65-69 | the number becomes a word |
| `BigInteger.BigInteger.IsWord` | src/livox_ros_driver2/3rdparty/rapidjson/internal/biginteger.h:155-157 | equal to a word exactly when the numbers are |
| `Words.DifferencesExact` | src/livox_ros_driver2/3rdparty/rapidjson/internal/biginteger.h:199-206 | on word sequences: the subtraction loop is exact if and only if every borrow is kept, and otherwise too large |
| `Words.LostBorrowExample` | src/livox_ros_driver2/3rdparty/rapidjson/internal/biginteger.h:201-203 | 2^128 less 2^128 - 2^64 + 1 comes out as 2^128 + 2^64 - 1 in three words |
| `Words.ShiftedWordsExact` | src/livox_ros_driver2/3rdparty/rapidjson/internal/biginteger.h:135-140 | the words shifted by part of a word make the number times that power of two |
| `Words.HighestWordDecides` | src/livox_ros_driver2/3rdparty/rapidjson/internal/biginteger.h:214-218 | of two numbers of one length, the highest word where they differ decides |
| `Allocators.AlignRoundsUp` | src/livox_ros_driver2/3rdparty/rapidjson/rapidjson.h:291-294 | the mask rounds up to a multiple of eight for exactly the sizes up to 2^64 - 8, and gives zero above |
| `Allocators.RoomTestIsExact` | src/livox_ros_driver2/3rdparty/rapidjson/allocators.h:212-212 | the test for room is exact if and only if the 64-bit sum does not wrap around |
| `Allocators.MallocSound` | src/livox_ros_driver2/3rdparty/rapidjson/allocators.h:208-220 | `Malloc` returns null exactly for size zero or when a needed chunk is refused, and then changes nothing; otherwise all blocks stay disjoint, 8-aligned and inside their chunk if and only if no sum wraps around |
| `Allocators.MallocIsExact` | src/livox_ros_driver2/3rdparty/rapidjson/allocators.h:208-220 | with no sum wrapping: the block is cut off the last chunk if that has room for its size rounded up to eight, else off a new one of the greater of that and the least capacity, at the end of what is in use; null, and no change, if the new one is refused |
| `Allocators.TotalsMove` | src/livox_ros_driver2/3rdparty/rapidjson/allocators.h:191-205 | the total size grows by the rounded size, the total capacity by that of a new chunk only |
| `Allocators.RoundingWrapExample` | src/livox_ros_driver2/3rdparty/rapidjson/allocators.h:208-220 | a fresh pool asked for 2^64 - 1 bytes hands out a block that its chunk has no byte of |
| `Allocators.RoomWrapExample` | src/livox_ros_driver2/3rdparty/rapidjson/allocators.h:208-220 | a chunk of 64 bytes, 32 of them in use, takes a request for 2^64 - 24 and is left with 8 in use |
| `Allocators.ChunkWrapExample` | src/livox_ros_driver2/3rdparty/rapidjson/allocators.h:268-282 | a fresh pool asked for 2^64 - 8 bytes asks the base allocator for 16, header and all |
| `Allocators.ReallocSound` | src/livox_ros_driver2/3rdparty/rapidjson/allocators.h:223-253 | the same for `Realloc`, whether the block shrinks, grows in place or moves |
| `Allocators.ReallocKeepsBytes` | src/livox_ros_driver2/3rdparty/rapidjson/allocators.h:223-253 | `Realloc` keeps the old bytes of the block, and those of every other live block |
| `Allocators.ReallocIsExact` | src/livox_ros_driver2/3rdparty/rapidjson/allocators.h:223-253 | with no sum wrapping: a block stays where it is if it need not grow, or if it is the last of the last chunk and that has room, which is then taken; otherwise a block of the new size is cut as by `Malloc` |
| `Allocators.LastBlockIsInHead` | src/livox_ros_driver2/3rdparty/rapidjson/allocators.h:234-245 | a block that ends at the head chunk's top lies in the head chunk, so growing in place is safe |
| `Allocators.SizeWithinCapacity` | src/livox_ros_driver2/3rdparty/rapidjson/allocators.h:191-205 | in a sound pool the total size is at most the total capacity, and neither sum wraps around |
| `Allocators.RunStaysSound` | src/livox_ros_driver2/3rdparty/rapidjson/allocators.h:178-253 | after any run of `Malloc`, `Realloc` and `Clear` without wrap-around the pool is sound and its size within its capacity |
| `PoolAllocator.MemoryPoolAllocator.Malloc` | src/livox_ros_driver2/3rdparty/rapidjson/allocators.h:208-220 | on the linked list of chunks: the pool and the address are those of the function |
| `PoolAllocator.MemoryPoolAllocator.Realloc` | src/livox_ros_driver2/3rdparty/rapidjson/allocators.h:223-253 | the same, bytes copied included |
| `PoolAllocator.MemoryPoolAllocator.AddChunk` | src/livox_ros_driver2/3rdparty/rapidjson/allocators.h:268-281 | a new chunk becomes the head, or nothing changes |
| `PoolAllocator.MemoryPoolAllocator.WithBuffer` | src/livox_ros_driver2/3rdparty/rapidjson/allocators.h:153-167 | a pool over an aligned buffer that does not wrap around begins sound |
| `PoolAllocator.MemoryPoolAllocator.Clear` | src/livox_ros_driver2/3rdparty/rapidjson/allocators.h:178-186 | gives back every chunk but the user's buffer, which stays, with nothing in use |
| `PoolAllocator.MemoryPoolAllocator.Size` | src/livox_ros_driver2/3rdparty/rapidjson/allocators.h:201-205 | the sum over the list, which does not wrap, and is at most the capacity |
| `PoolAllocator.MemoryPoolAllocator.Capacity` | src/livox_ros_driver2/3rdparty/rapidjson/allocators.h:191-196 | the sum over the list, which does not wrap |
| `Ldq.RingIsFifo` | src/livox_ros_driver2/src/comm/ldq.cpp:86-148 | in every sequence of guarded pushes and pops, of any length and across any number of index wrap-arounds, the ring answers as an unbounded-history queue does |
| `Ldq.CountsAreExact` | src/livox_ros_driver2/src/comm/ldq.cpp:120-134 | full, empty, used and unused are exact however often the indices have wrapped, and used plus unused is the size |
| `Ldq.PushAppends` | src/livox_ros_driver2/src/comm/ldq.cpp:136-148 | a guarded push appends to the history and disturbs nothing that has not been popped |
| `Ldq.PopTakesOldest` | src/livox_ros_driver2/src/comm/ldq.cpp:86-118 | a pop takes the oldest packet not yet popped |
| `Ldq.ReadIsNotWritten` | src/livox_ros_driver2/src/comm/ldq.cpp:97-148 | while the ring is neither full nor empty the slot being read is not the slot being written |
| `Ldq.PowerOf2Test` | src/livox_ros_driver2/src/comm/ldq.h:35-37 | the bit test holds for exactly the powers of two |
| `Ldq.RoundupPowerOf2` | src/livox_ros_driver2/src/comm/ldq.h:39-49 | the least power of two that is no smaller, up to 2^31; any larger size is rounded down to 2^31 |
| `Ldq.LidarDataQueue.Init` | src/livox_ros_driver2/src/comm/ldq.cpp:33-61 | an empty ring of the size asked for, rounded up to a power of two |
| `Ldq.LidarDataQueue.Pop` | src/livox_ros_driver2/src/comm/ldq.cpp:111-118 | fails on exactly the empty ring; otherwise copies the oldest packet out and moves the read index |
| `Ldq.LidarDataQueue.PrePop` | src/livox_ros_driver2/src/comm/ldq.cpp:86-105 | the same without moving it |
| `Ldq.LidarDataQueue.PushAny` | src/livox_ros_driver2/src/comm/ldq.cpp:136-148 | overwrites the slot of the write index in place, then moves the index |
| `Ldq.LidarDataQueue.PopUpdateQueue` | src/livox_ros_driver2/src/comm/ldq.cpp:107-109 | the read index moves on, wrapping around |
| `Ldq.LidarDataQueue.IsFullQueue` | src/livox_ros_driver2/src/comm/ldq.cpp:128-130 | the test on the wrapped difference |
| `Ldq.LidarDataQueue.IsEmptyQueue` | src/livox_ros_driver2/src/comm/ldq.cpp:132-134 | the test on the indices |
| `Ldq.LidarDataQueue.UsedSize` | src/livox_ros_driver2/src/comm/ldq.cpp:120-122 | the wrapped difference |
| `Ldq.LidarDataQueue.UnusedSize` | src/livox_ros_driver2/src/comm/ldq.cpp:124-126 | what is left of the size |
| `PubHandler.DecodedPoints` | src/livox_ros_driver2/src/comm/pub_handler.cpp:369-510 | every raw point of a packet yields its one or two points, in order, with line and time from its position; an unknown type yields none |
| `PubHandler.DecodedIsSpaced` | src/livox_ros_driver2/src/comm/pub_handler.cpp:369-510 | the first point has the time of the packet and line 0; each next one is an interval later modulo 2^64 and on the next line, back to 0 after the last; the two points of a double echo share both |
| `PubHandler.LidarPubHandler.PointCloudProcess` | src/livox_ros_driver2/src/comm/pub_handler.cpp:306-337 | appends exactly the points of the packet to the buffer, spaced as its time stamp, interval and line count say |
| `PubHandler.LidarPubHandler.GetLidarPointClouds` | src/livox_ros_driver2/src/comm/pub_handler.cpp:288-291 | the swap hands the buffer over and takes the vector given in its place |
| `PubHandler.LidarPubHandler.GetLidarBaseTime` | src/livox_ros_driver2/src/comm/pub_handler.cpp:281-286 | the time of the first point, or zero |
| `PubHandler.LidarPubHandler.GetRecentTimeStamp` | src/livox_ros_driver2/src/comm/pub_handler.cpp:293-298 | the time of the last point, or zero |
| `PubHandler.LidarPubHandler.ProcessSinglePoints` | src/livox_ros_driver2/src/comm/pub_handler.cpp:369-458 | the loop of the three single-echo formats appends exactly the points of the packet, spaced as it says |
| `PubHandler.LidarPubHandler.ProcessDoubleEchoPoint` | src/livox_ros_driver2/src/comm/pub_handler.cpp:461-510 | so does the loop that appends two points a turn |
| `PubHandler.FramesConserve` | src/livox_ros_driver2/src/comm/pub_handler.cpp:208-224 | publishing lidar after lidar keeps, for each, points published followed by points buffered equal to points decoded |
| `PubHandler.OneFrameEach` | src/livox_ros_driver2/src/comm/pub_handler.cpp:208-224 | a publication has exactly one frame for each lidar with points, in the order of the ids, with all its points and the time of the first |
| `PubHandler.PubHandler.CheckSyncTimer` | src/livox_ros_driver2/src/comm/pub_handler.cpp:166-194 | with synchronised clocks this lidar alone is published, exactly when it is due |
| `PubHandler.SyncDueMeans` | src/livox_ros_driver2/src/comm/pub_handler.cpp:171-182 | it is due exactly when its newest point falls in the first millisecond of an interval, other than the very first, and is at least the tolerance later, modulo 2^64, than its oldest |
| `PubHandler.PubHandler.CheckFreeTimer` | src/livox_ros_driver2/src/comm/pub_handler.cpp:195-225 | without, all lidars with points are published in the order of their ids, exactly when the interval has passed; the first call only sets the clock |
| `PubHandler.PubHandler.FillFrame` | src/livox_ros_driver2/src/comm/pub_handler.cpp:209-221 | a lidar with points adds one entry to the frame, with the time of its first point, and its buffer is emptied |
| `PubHandler.PubHandler.OnPointCloud` | src/livox_ros_driver2/src/comm/pub_handler.cpp:129-155 | the packet joins the queue with its line count, time stamp and the time between its points, if it has any; with none the division by their number has no result |
| `PubHandler.Received` | src/livox_ros_driver2/src/comm/pub_handler.cpp:129-148 | line count by device (6, 4 or 1), the time stamp of the packet if its clock is synchronised and the host's if not, and between points the time the lidar took divided by their number, rounded down |
| `PubHandler.PubHandler.PublishPointCloud` | src/livox_ros_driver2/src/comm/pub_handler.cpp:156-162 | the callback gets the frame |
| `PubHandler.PubHandler.CheckTimer` | src/livox_ros_driver2/src/comm/pub_handler.cpp:164-227 | which lidars are due in either mode; their buffers become frames and the others stay; conservation is kept |
| `PubHandler.PubHandler.DecodePacket` | src/livox_ros_driver2/src/comm/pub_handler.cpp:240-252 | the oldest packet goes into the buffer of its lidar, whose handler is made on first use |
| `PubHandler.PubHandler.ProcessPacket` | src/livox_ros_driver2/src/comm/pub_handler.cpp:229-255 | every round, with the sync mode switching freely, publishes exactly the lidars that are due, and keeps: points decoded are those of the frames published, then those buffered, for each lidar, in order |
| `Lds.Semaphore.Signal` | src/livox_ros_driver2/src/comm/semaphore.cpp:29-33 | one more |
| `Lds.Semaphore.Wait` | src/livox_ros_driver2/src/comm/semaphore.cpp:35-39 | returns on a positive count, one less |
| `Lds.Semaphore.GetCount` | src/livox_ros_driver2/src/comm/semaphore.h:39-42 | the count |
| `Lds.Lds.PushLidarData` | src/livox_ros_driver2/src/lds.cpp:170-196 | the packet is taken if there is room and dropped whole if not; the semaphore is raised only from zero or below, and is up afterwards either way |
| `Lds.Lds.StoragePointData` | src/livox_ros_driver2/src/lds.cpp:148-168 | the frames go to the rings of their lidars in order; those of unknown lidars are skipped; the semaphore is up if any was not |
| `Lds.Lds.StorageImuData` | src/livox_ros_driver2/src/lds.cpp:99-123 | the same for inertial data, on its own queues and semaphore |
| `Lds.Lds.PollingLidarPointCloudData` | src/livox_ros_driver2/src/lddc.cpp:162-231 | drains the lidar's ring, leaves the other rings alone, and publishes its packets in order but for the empty ones |
| `Lds.Lds.DistributePointCloudData` | src/livox_ros_driver2/src/lddc.cpp:118-138 | one round empties the ring of every sampling lidar and touches no other |
| `Lds.Lds.DistributeImuData` | src/livox_ros_driver2/src/lddc.cpp:140-160 | the same for inertial data |
| `Lds.OthersUntouched` | src/livox_ros_driver2/src/lds.cpp:148-168 | rings of lidars that no frame is for stay as they were |
| `Lds.DrainIsHistory` | src/livox_ros_driver2/src/lddc.cpp:201-215 | draining a ring gives the packets it took and had not yet given |
| `Lds.OfferIsFifo` | src/livox_ros_driver2/src/lds.cpp:170-196 | a packet joins its queue exactly when that holds fewer than the ring has slots, and is dropped whole otherwise; a ring is given its size on first use |
| `Wakeup.NoLostWakeup` | src/livox_ros_driver2/src/lds.cpp:187-195 | in every interleaving the count is 0 or 1, and when the consumer is blocked and the producer past its test every sampling queue is empty |
| `Wakeup.ConsumerEmptiesAll` | src/livox_ros_driver2/src/lddc.cpp:118-138 | from any state the invariant allows, the consumer left to itself reaches a state where it is blocked and every sampling queue is empty |
| `Wakeup.StepKeepsInvariant` | src/livox_ros_driver2/src/lddc.cpp:128-137 | every step keeps: a non-empty sampling queue is covered by the count, by the scan still to reach it, or by the producer still to test |
| `Pipeline.RingsAreCovered` | src/livox_ros_driver2/src/lds.cpp:170-196 | the same with one shared access to a step: while a sampling lidar's ring holds a packet the semaphore is up, the scan has yet to pass it, or the producer is between push and test |
| `Pipeline.StepSimulates` | src/livox_ros_driver2/src/lddc.cpp:162-215 | every step of the two threads over the rings is a step of the wakeup protocol over queues, or none |
| `Pipeline.PointsAreConserved` | src/livox_ros_driver2/src/comm/pub_handler.cpp:164-255 | in every run of both threads and for each lidar: points decoded are, in order, those of frames handed over (taken by the ring or dropped whole), in flight, and buffered; packets taken are those delivered, then those in the ring; each frame's base time is its first point's |
| `Pipeline.OnlyFullRingsDrop` | src/livox_ros_driver2/src/lds.cpp:170-186 | in every run and at every step of either thread, a frame handed over is the next in line, and is dropped exactly when the ring of its lidar holds as many packets as it has slots; otherwise it joins the end of the queue |
| `Pipeline.NoSlotIsTorn` | src/livox_ros_driver2/src/comm/ldq.cpp:97-146 | in every run the producer never writes the slot that the consumer is reading, although neither access is one step |
| `Pipeline.NeverStuck` | src/livox_ros_driver2/src/lddc.cpp:128-137 | the producer can always go on while it has work in hand, and the consumer unless it is at the semaphore |
| `Pipeline.StepKeepsInvariant` | src/livox_ros_driver2/src/lds.cpp:170-196 | every step of either thread keeps all of it |
| `Threads.PushIsARun` | src/livox_ros_driver2/src/lds.cpp:170-196 | a whole push, with its allocation, test, two writes, index and semaphore, is a run of the producer's steps |
| `Threads.RoundIsARun` | src/livox_ros_driver2/src/comm/pub_handler.cpp:229-255 | for any state between two rounds, any packet and any lidars due: decoding, publishing and storing their frames is a run of the producer's steps, with the rings, buffers and semaphore of the value functions |
| `Threads.ScanIsARun` | src/livox_ros_driver2/src/lddc.cpp:118-138 | from the semaphore to the semaphore, a scan that drains every sampling lidar is a run of the consumer's steps |
| `Threads.ProcessAndStore` | src/livox_ros_driver2/src/comm/pub_handler.cpp:156-162 | the objects after `ProcessPacket` and `StoragePointData` agree with the pipeline after a run of the producer's steps |
| `Threads.Distribute` | src/livox_ros_driver2/src/lddc.cpp:118-231 | the objects after one round of delivery agree with the pipeline after a run of the consumer's steps, and what is published is what was delivered: empty packets are left out, and in a reachable state there are none |
| `Handshake.SamplingMeansConfigured` | src/livox_ros_driver2/src/call_back/livox_lidar_callback.cpp:56-94 | in every run, with any order of answers, timeouts, retries and connection events: a sampling lidar has acknowledged each of the four settings whose field is not -1; one with no bit outstanding after a connection event is sampling; an outstanding bit means a request under way, an answer waiting, or a failure |
| `Handshake.OnlyConfiguredIsAsked` | src/livox_ros_driver2/src/call_back/livox_lidar_callback.cpp:62-93 | in no run is a setting asked for whose field is -1 |
| `Handshake.FileIsAskedFor` | src/livox_ros_driver2/src/parse_cfg_file/parse_livox_lidar_cfg.cpp:73-94 | from file to lidar: when a lidar samples, every key that its entry has, whatever the value but 255 modulo 256, has been asked for and acknowledged |
| `Handshake.WithoutLock` | src/livox_ros_driver2/src/call_back/livox_lidar_callback.cpp:59-61 | without the lock there is a run where a lidar is sampling before it has been asked for all its settings |
| `Handshake.RequestedAreOutstanding` | src/livox_ros_driver2/src/call_back/livox_lidar_callback.cpp:62-93 | after the locked part exactly the settings whose field is not -1 are outstanding, besides those that were, and no other bit is touched |
| `Handshake.LidarDevice.LidarInfoChange` | src/livox_ros_driver2/src/call_back/livox_lidar_callback.cpp:59-94 | exactly the settings whose field is not -1 are sent, each once, in order and with its value, and exactly their bits set; the lidar is sampling at once if nothing is outstanding |
| `Handshake.LidarDevice.SetCallback` | src/livox_ros_driver2/src/call_back/livox_lidar_callback.cpp:129-259 | success clears exactly the bit of the setting and starts sampling on the last; a timeout asks again; a failure changes nothing |
| `LidarConfig.ParseConfig` | src/livox_ros_driver2/src/parse_cfg_file/parse_livox_lidar_cfg.cpp:71-94 | each field is -1 if its key is not there, and otherwise the value cut to eight bits |
| `LidarConfig.ParseUserConfigs` | src/livox_ros_driver2/src/parse_cfg_file/parse_livox_lidar_cfg.cpp:64-118 | one configuration for each entry with an address, in order; it succeeds exactly when there is one |
| `LidarConfig.KeyIsLostIff` | src/livox_ros_driver2/src/parse_cfg_file/parse_livox_lidar_cfg.cpp:75-94 | a key in the file counts as missing if and only if its value is 255 modulo 256 |
| `LidarConfig.KeyIsKeptIff` | src/livox_ros_driver2/src/parse_cfg_file/parse_livox_lidar_cfg.cpp:75-94 | a value reaches its field unchanged if and only if eight bits hold it |
| `LidarConfig.BlindSpotTurnsNegative` | src/livox_ros_driver2/src/parse_cfg_file/parse_livox_lidar_cfg.cpp:85-89 | of the documented blind spots, 50 to 200 cm, those from 128 on are asked for as negative numbers |
| `Waypoints.NamesAreUnique` | glim/glim_ext_addon/waypoint_manager/include/glim_ext/waypoint_manager_module.hpp:166-195 | in every run each tagged name is bound or pending exactly once, no other name is, and no known submap covers a pending stamp |
| `Waypoints.FoundPose` | glim/glim_ext_addon/waypoint_manager/include/glim_ext/waypoint_manager_module.hpp:197-226 | what a lookup finds after any events, from the events alone: for a name tagged, take the last frame before its last tagging; of the submaps known then, the newest whose stamps span it, or else the first to come that does; and the last world pose given for that submap, composed with the frame relative to the submap's origin. Nothing while there is no such submap or pose, or for a name not tagged |
| `Waypoints.AfterEvents` | glim/glim_ext_addon/waypoint_manager/include/glim_ext/waypoint_manager_module.hpp:119-164 | after any events the frame held is the last that came, the submaps are those that came, in order, and the world pose of an id is the last given for it, by an insertion or a correction, and there is none for any other |
| `Waypoints.ChosenStays` | glim/glim_ext_addon/waypoint_manager/include/glim_ext/waypoint_manager_module.hpp:166-195 | until a name is tagged again, whatever happens, its submap is the same at every lookup |
| `Waypoints.CoveredIsFound` | glim/glim_ext_addon/waypoint_manager/include/glim_ext/waypoint_manager_module.hpp:197-226 | a tagged waypoint covered by a known submap is found once such submaps are in the map |
| `Waypoints.CorrectionMovesWaypoint` | glim/glim_ext_addon/waypoint_manager/include/glim_ext/waypoint_manager_module.hpp:157-164 | a loop closure moves the waypoints of the corrected submap by the same correction, and no other |
| `Waypoints.UncorrectedPose` | glim/glim_ext_addon/waypoint_manager/include/glim_ext/waypoint_manager_module.hpp:414-424 | a waypoint whose submap was never corrected is found where it was tagged |
| `Waypoints.EventKeepsInvariant` | glim/glim_ext_addon/waypoint_manager/include/glim_ext/waypoint_manager_module.hpp:119-195 | every event keeps all of it |
| `WaypointManager.WaypointManager.AddWaypointCb` | glim/glim_ext_addon/waypoint_manager/include/glim_ext/waypoint_manager_module.hpp:166-195 | refused without odometry or name; otherwise earlier entries of the name go, and it is bound or queued |
| `WaypointManager.WaypointManager.GetWaypointCb` | glim/glim_ext_addon/waypoint_manager/include/glim_ext/waypoint_manager_module.hpp:197-226 | the first entry of the name decides, and is not found when its submap has no world pose |
| `WaypointManager.WaypointManager.FindSubmapForStamp` | glim/glim_ext_addon/waypoint_manager/include/glim_ext/waypoint_manager_module.hpp:393-400 | the newest submap that covers the stamp, or none |
| `WaypointManager.WaypointManager.BindPendingWaypoints` | glim/glim_ext_addon/waypoint_manager/include/glim_ext/waypoint_manager_module.hpp:426-437 | the loop that erases as it goes binds exactly the covered entries, in order, and keeps the others, in order |
| `WaypointManager.WaypointManager.EraseWaypointNamed` | glim/glim_ext_addon/waypoint_manager/include/glim_ext/waypoint_manager_module.hpp:402-406 | removes every entry of the name and keeps the rest in order |
| `WaypointManager.WaypointManager.OnNewSubmap` | glim/glim_ext_addon/waypoint_manager/include/glim_ext/waypoint_manager_module.hpp:129-147 | a submap with frames is remembered and what it covers is bound |
| `WaypointManager.WaypointManager.OnUpdateNewFrame` | glim/glim_ext_addon/waypoint_manager/include/glim_ext/waypoint_manager_module.hpp:119-127 | the newest odometry pose and stamp |
| `WaypointManager.WaypointManager.OnInsertSubmap` | glim/glim_ext_addon/waypoint_manager/include/glim_ext/waypoint_manager_module.hpp:149-155 | the world pose of a submap that enters the map |
| `WaypointManager.WaypointManager.OnUpdateSubmaps` | glim/glim_ext_addon/waypoint_manager/include/glim_ext/waypoint_manager_module.hpp:157-164 | the corrected world poses, the last one winning |
| `WaypointManager.WaypointManager.ErasePendingWaypointNamed` | glim/glim_ext_addon/waypoint_manager/include/glim_ext/waypoint_manager_module.hpp:408-412 | removes every queued entry of the name and keeps the rest in order |
| `WaypointManager.WaypointManager.AddWaypointLocked` | glim/glim_ext_addon/waypoint_manager/include/glim_ext/waypoint_manager_module.hpp:414-424 | appends the pose relative to the submap's origin |
| `Route.GoThrough` | src/kratos_nav/scripts/waypoint_mission.py:233-292 | the polling loop gives the ride of its function for every sequence of reports, results, refreshes and replies |
| `Route.ReadReport` | src/kratos_nav/scripts/waypoint_mission.py:259-263 | a report of fewer poses remaining than names ahead leaves that many ahead, and logs the names in between, in order; any other changes nothing |
| `Route.RideLeaves` | src/kratos_nav/scripts/waypoint_mission.py:255-292 | for every route and every sequence of turns without a result, or with a failing one at the end: the names left are as many of the last as the least report heard, or all if none was less; those before them are the ones logged |
| `Route.RideSucceeds` | src/kratos_nav/scripts/waypoint_mission.py:265-271 | a result of success leaves nothing |
| `Route.RideSends` | src/kratos_nav/scripts/waypoint_mission.py:275-291 | the goal sent on a refresh that moved is exactly the names left there, and no goal is sent otherwise |
| `Route.ResultEnds` | src/kratos_nav/scripts/waypoint_mission.py:265-273 | nothing after a result matters |
| `Route.RideAccounts` | src/kratos_nav/scripts/waypoint_mission.py:255-292 | in every ride, through any number of re-sends and failed sends, the names logged as reached followed by the names returned are the original list |
| `Route.NoFalseReach` | src/kratos_nav/scripts/waypoint_mission.py:163-170 | in every run, whatever goal a report comes from and however late, a name is logged as reached only after Nav2 has passed it, and the names ahead are the rest of the route |
| `Route.NoValueError` | src/kratos_nav/scripts/waypoint_mission.py:275-284 | with at least one pose remaining in every report, a ride never fails |
| `Route.RefreshFailsWhenAllReached` | src/kratos_nav/scripts/waypoint_mission.py:277-284 | a refresh fails if and only if every name has been logged as reached before the result came |
| `Route.RideFailsIff` | src/kratos_nav/scripts/waypoint_mission.py:233-292 | for every route and every sequence of turns: the ride fails if and only if a refresh falls due at a turn, with no result up to it, by which a report of no pose remaining has come, or on an empty route |
| `Route.ValueErrorExample` | src/kratos_nav/scripts/waypoint_mission.py:281-283 | such a ride: a report of no pose remaining, and a refresh before the result |
| `Mission.EveryGoalIsTracked` | src/kratos_nav/scripts/waypoint_mission.py:172-231 | in every run without an interrupt while a goal is exposed, in any order of timeouts, late acceptances, preemptions, results and cleanup, the goal being executed is the current one, a request not answered, or one for which a cancel is or was being sent |
| `Mission.OnlyLateOrCurrentIsCancelled` | src/kratos_nav/scripts/waypoint_mission.py:337-365 | in every run, a goal is cancelled only if the wait for its answer timed out, or it is the current one while the node cleans up |
| `Mission.InterruptIsSafeIff` | src/kratos_nav/scripts/waypoint_mission.py:337-365 | whatever follows an interrupt is safe if and only if no goal was exposed by it |
| `Mission.InterruptedMissionIsSafeIff` | src/kratos_nav/scripts/waypoint_mission.py:337-365 | for every mission, interrupted after any steps: everything that can follow is safe if and only if no goal is exposed there |
| `Mission.LostGoalExample` | src/kratos_nav/scripts/waypoint_mission.py:172-183 | such a mission: a request, the interrupt, and an answer that accepts it after all |
| `Mission.ExposedIsLost` | src/kratos_nav/scripts/waypoint_mission.py:172-183 | an exposed goal has a continuation in which it is executed and nobody tracks it |
| `Mission.WaypointMission.SendAction` | src/kratos_nav/scripts/waypoint_mission.py:172-183 | a timed-out request is remembered, an accepted goal becomes the current one, a rejected one changes nothing |
| `Mission.WaypointMission.CancelLateGoals` | src/kratos_nav/scripts/waypoint_mission.py:337-348 | every late answer is taken off the list, and cancelled if it is a yes; the others stay, in order |
| `Mission.LateRequestsLeave` | src/kratos_nav/scripts/waypoint_mission.py:337-348 | what stays on the list is what has no answer, and what is cancelled is what was accepted, each as often as it was there |
| `Mission.WaypointMission.CancelCurrent` | src/kratos_nav/scripts/waypoint_mission.py:350-353 | the current goal, if any, is cancelled |
| `Mission.WaypointMission.Cleanup` | src/kratos_nav/scripts/waypoint_mission.py:355-365 | the current goal is cancelled, and every remembered request that is accepted in time; no cancel is forgotten |

## Left out

- Reader: numbers as strings, in-situ parsing, NaN and infinity, full precision; the conversion of a literal to a double is an abstract function of its text, and so is whether it is too big.
- Reader: the pull interface (`IterativeParseNext`), the SIMD scans, and streams other than one that yields NUL at its end; reading past a NUL that ends a string is not modelled.
- Trees.ParseSendsOneTree: texts of 4 GiB and more, whose counts can wrap around in 32 bits; `Brackets.ParsedStreamIsNested` has no such bound.
- Reader.GenericReader.ParseString: the length of a string is 32 bits wide when it is handed over, so that strings of 4 GiB and more are cut; here they are whole.
- RoundTrip.PrintThenParse: doubles and raw values are not printed, and brackets hold fewer than 2^32 values.
- Writer: validation flags, UTF-16 and UTF-32, and printing of doubles; integers are printed as plain decimals.
- Document: strings by reference, allocators, swap and move, equality across signs, parsing in situ.
- PointerObject.GenericPointer.Parse: the byte at `length`, which the source reads, is taken to be NUL; a source that is not terminated there is not modelled.
- PointerObject.PercentDecodeStream.Take: it reads the byte at the end before it tests the end; that byte, too, is taken to be NUL.
- Pointer: array indices of tokens, and lookup of a pointer in a document; names only.
- BigInteger.BigInteger.ShiftBy: what a write past the array does to other memory; the shift stops there.
- BigInteger: copying from another big integer, and `Difference` into one of its own operands.
- PoolAllocator: the base allocator is a parameter that hands out fresh aligned memory or refuses; destruction and `Free`, which does nothing, are left out.
- Ldq: `DeInitQueue`, `ResetQueue` and null arguments.
- Lds: the rings are values here; the slots overwritten in place are those of `Ldq.LidarDataQueue`. The index of a lidar is a map given from outside; `StorageLvxPointData`, the message fillers and the PCL format, whose loop does not pop, are left out.
- PubHandler.PubHandler.OnPointCloud: inertial data, which the same callback hands on to `Lds.Lds.StorageImuData`; the switch of the sync mode is a parameter of each round.
- PubHandler: `SetPointCloudConfig`, which turns a frequency into the interval and the tolerance given here.
- PubHandler: what a point carries (coordinates, extrinsics, intensity, tag) is opaque; a handler is held by its buffer.
- Pipeline: sequential consistency, a fixed set of sampling lidars and no exit request; at most one producer and one consumer.
- Threads: the index of the lidars does not change during a round; rounds of the two threads interleave in `Pipeline`, not here.
- Handshake: the attitude, inertial-data and work-mode requests, which do not touch the bits, and lidars that are not configured.
- LidarConfig: the address as a number is given, so its conversion is left out, as are the extrinsic parameters, the file itself and the assertions on the types of its values.
- Waypoints: files, markers and the listing service; stamps are reals, so NaN is left out.
- Route: a first goal that is not accepted, after which all names are returned; resolving names, `go_to` and its threshold; whether a waypoint moved is a parameter.
- Mission: a second interrupt during cleanup.
- `schema.h`, ROS, Nav2, GLIM and SDK calls, launch files, logging and scripts.
