# A verified model of nvbandwidth

This Dafny project models three parts of nvbandwidth, NVIDIA's tool for measuring copy
bandwidth and latency between GPUs, and proves properties of them:

1. the JSON library it ships (`json/jsoncpp.cpp`), which writes the results: the reader
   `OurReader`, the writers `FastWriter` and `BuiltStyledStreamWriter`, and the parts of
   `Value` they rest on;
2. the multi-rank measurement (`multinode_memcpy.cpp` with the sample loop of `memcpy.cpp`):
   the start latch that all ranks share, the sharing of copies among ranks and the reassembly
   of their results, and the sampled list of GPU pairs;
3. the copy kernels and the data check (`kernels.cu`, `memcpy.cpp`), and the pointer ring of
   the latency tests (`testcase.cpp`).

`dafny verify dfyconfig.toml` checks the whole project.

## Main results

**JSON.** Parsing undoes printing.  What reading back a written document comes to is computed
from the document, the writer's settings and the reader's features alone: whether it throws,
fails with which error or succeeds, and the value it builds (module `Outcomes`), and
`OurReader` does exactly that with whatever `FastWriter` or `BuiltStyledStreamWriter` write
(`RoundTrip.ParseOfLayout`, `EndToEnd.FastThenRead`, `EndToEnd.StyledThenRead`).  From this
follows when the document is restored (`Restoring.RoundTripIff`): if and only if every string
and every name is well-formed UTF-8 or `emitUTF8` is set, no null is lost, no name reaches the
length limit, the nesting stays within the stack limit, and `strictRoot_` does not refuse a
scalar root.  Nulls are lost only where they are dropped; a reader that allows for that loses
only a null document and an array of exactly one null, any other reader all of them
(`JsonTheorems.DroppedNulls`).  For all other input the parser is total: it ends inside the
text, returns true exactly when it has recorded no error, and leaves a valid value behind.
The reader class keeps the cursor, the stack of pointers into the document under construction
and the error list of the C++ code, and each of its methods is proved equal to a function in
`Lexing` or `Parsing`; what the tokens, the escapes and the errors are, and what each feature
changes, is stated in modules `Lexing`, `Quoting` and `Dialects` for every text.  The text of
`BuiltStyledStreamWriter` is exact (module `StyledTexts`): which values start a line, how far it
is indented, and which arrays stay on one line.

**Ranks.** The latch is a step relation over any number of ranks, samples and copies, in which
every host step and every step of every spin kernel may interleave.  Its safety
(`Latch.LatchSafety`), freedom from deadlock (`Latch.Progress`) and termination
(`Latch.MaximalRunCompletes`) hold for every run; which rank launches how many spin kernels is
what dispatching makes of the owners of the copies (`Latch.FirstOwns`).  From dispatch on, every
rank ends with the results of all copies, their sum, or the first one
(`Dispatch.MeasureAll`, `Dispatch.SumBandwidth`, `Dispatch.FirstBandwidth`).

**Copies and checks.** The unrolled strided copy refines a memory copy: under every schedule at
every moment (`StridedCopy.CopyIsMemcpy`), and to the end under every schedule that gives each
thread its turns (`StridedCopy.FairCopyIsMemcpy`).  Together with the xorshift pattern, whose
step is injective, the data check finds wrong exactly the words no thread has stored
(`CheckedCopy.CheckFindsTheRest` for every element width, and `SplitWarp.CheckIsExact` for the
bidirectional copy).

## Where the code does less than one might expect

- The launch for buffers below 64 MiB has no tail: a buffer with more than 1024 elements that
  are no multiple of 1024 is announced and checked in full but not copied in full, so the check
  fails; `CheckedCopy.WholeCopyPasses` gives the exact condition for every element width.  At
  the default width of 16 bytes a buffer of 20 KiB is such a case
  (`CheckedCopy.TwentyKibibytes`); buffers of whole MiB never are
  (`StridedCopy.MebibytesAreCovered`).  From 64 MiB on the announced size is rounded down, and
  what lies beyond it is neither filled nor copied nor checked (`CheckedCopy.DefaultBuffer`).
- On sparse arrays `removeIndex` shortens the array by more than one element when it removes
  the last one behind holes, and the final assertion of `resize` fails when shrinking ends in a
  hole; the contracts of `ArrayOps.ArrayValue` give the exact conditions, and
  `ArrayOps.RemovingUncoversHole` and `ArrayOps.ShrinkingEndsInHole` an array with places 0 and
  2 on which both happen.
- With dropped null placeholders an array of exactly one null is written like the empty array
  (`JsonTheorems.OneNullIsLost`); `JsonTheorems.DroppedNulls` gives the exact condition for
  everything else.
- Names that are not well-formed UTF-8 can fall together: 0x80 and 0x81 are read back as one
  name (`Outcomes.TwoNamesReadAsOne`).  The last member wins (`Outcomes.LastWins`), or, where
  duplicates are rejected, parsing fails (`Restoring.DuplicateIff`).
- The reader accepts more than RFC 8259 allows: a lone minus sign is 0, whatever follows a NUL
  byte behind a document is not looked at (`Leniency.TextAfterNul`), and after a comment behind
  a member's value one token is swallowed (`Leniency.SwallowsIff` gives the exact condition).
- An unsigned value that fits 64-bit signed range is read back tagged `intValue`; the theorems
  compare integers by number.
- An object with a comma behind its last member is accepted without `allowTrailingCommas` if the
  last name is empty (`Dialects.TrailingCommaInObject`).  Comments in front of names and behind
  elements are accepted without `allowComments` (`Dialects.CommentBeforeName`,
  `Dialects.CommentBehindElement`), and a comment that is never closed is accepted if the
  document ends in a slash (`Lexing.UnclosedComment`).
- In single quotes a double quote ends the text of a string (`Quoting.ReadsPlain`).

## Conventions

A byte is an integer below 256 and a C++ string a sequence of bytes; masks and shifts of the
UTF-8 code are written as remainders and quotients.  `Value` is a datatype whose arrays and
objects are the nodes of the `std::map` in key order; its meaning as a document, with holes of
sparse arrays read as null, is `Documents.Meaning`.  A pointer into a document under
construction is the list of keys that leads to it.  The text of a `double` and the `double` read
from a text are parameters (`Library`, `Style`), about which the theorems assume only what they
name.  GPU threads are steps over shared memory taken in the order of an arbitrary schedule.

## Model

| member | source | states |
|---|---|---|
| EndToEnd.StyledThenRead | json/jsoncpp.cpp:5000-5014 | Whatever `BuiltStyledStreamWriter` writes for a valid value, under every setting, `OurReader` reads back, with any features and any previous root, with exactly the outcome the verdict names (an exception, one kind of error, or the value built); it restores the document if and only if every string and name survives quoting, no null is lost, names are short, it does not nest too deeply and is no refused scalar; the node stack is empty afterwards |
| EndToEnd.FastThenRead | json/jsoncpp.cpp:4447-4453 | The same for `FastWriter`, dropped nulls included |
| EndToEnd.LayoutIsReadBack | json/jsoncpp.cpp:1248-1292 | The same for any text that lays out the tokens of a value's document |
| JsonTheorems.ReadIsValid | json/jsoncpp.cpp:1294-1384 | Whatever the bytes, the features and the outcome, `readValue` leaves a valid value: keys in map order without duplicates at every level, indices only in arrays, names only in objects, integers in range |
| JsonTheorems.MembersAreValid | json/jsoncpp.cpp:1684-1746 | The loop of `readObject` keeps the object valid on every path, errors included |
| JsonTheorems.ElementsAreValid | json/jsoncpp.cpp:1748-1788 | The loop of `readArray` keeps the array valid on every path, errors included |
| JsonTheorems.ParseIsValid | json/jsoncpp.cpp:1248-1292 | Parsing any bytes into a valid root leaves a valid root |
| JsonTheorems.FastRoundTrip | json/jsoncpp.cpp:4447-4506 | Parsing what `FastWriter` writes restores the document of any valid value (sparse arrays and both integer tags included: integers by number, arrays as sequences of length `size()`) if and only if it is restorable, for every setting, every set of features and every previous root |
| JsonTheorems.WellFormedRoundTrip | json/jsoncpp.cpp:4447-4506 | In plain terms: a container without reals, with well-formed UTF-8 and short names, all nulls written and not nested too deeply comes back whole, whatever the features |
| JsonTheorems.DroppedNulls | json/jsoncpp.cpp:1358-1370 | With nulls dropped and nothing else in the way, a container is restored if and only if no array holds one null and nothing else, where the reader allows for dropped nulls, and if and only if there is no null, where it does not |
| JsonTheorems.OneNullIsLost | json/jsoncpp.cpp:4457-4459 | With dropped nulls an array of one null is written as the empty array, and no reader restores it |
| JsonTheorems.LayoutDoesNotMatter | json/jsoncpp.cpp:5015-5126 | Two layouts of the same tokens are parsed alike: both throw, both fail with the same kind of error, or both give the same value |
| Restoring.RoundTripIff | json/jsoncpp.cpp:1248-1292 | Parsing any layout of a document restores it if and only if all strings and names survive quoting, no null is lost, no name is too long, it does not nest too deeply, and it is not a scalar that `strictRoot_` refuses; every condition can be checked before writing |
| Restoring.BuiltRestoresIff | json/jsoncpp.cpp:4349-4424 | The value built means the document if and only if its strings and names survive quoting and no array loses a null |
| Restoring.BuiltIsReread | json/jsoncpp.cpp:1724-1727 | The value built is the document with all strings and names in normal form if and only if the names of every object are still distinct and in order and no array loses a null |
| Restoring.BuiltIsCanonical | json/jsoncpp.cpp:1871-1875 | A value read back is the one its own document is read as, with all its strings in normal form |
| Restoring.RereadKeepsIffStorable | json/jsoncpp.cpp:4349-4424 | Strings and names in normal form are the document itself if and only if they are well-formed UTF-8, or `emitUTF8` is set |
| Restoring.DuplicateIff | json/jsoncpp.cpp:1714-1717 | With duplicates rejected and nothing else wrong, parsing reports a duplicate key if and only if two names of some object are read back as one |
| Restoring.FailsIffDuplicate | json/jsoncpp.cpp:1714-1717 | The same for the verdict, at every depth |
| Restoring.FineShows | json/jsoncpp.cpp:1294-1300 | Success shows that the document does not nest too deeply, that no name reaches the length limit and that no dropped null was missed |
| Restoring.NullsKeptIff | json/jsoncpp.cpp:1753-1765 | Nulls are kept if and only if no array loses its last one, none is missed, and the document is not itself a dropped null |
| Restoring.UntrimmedIffNoLoneNull | json/jsoncpp.cpp:1753-1765 | Where the reader allows for dropped nulls only an array of exactly one null loses it |
| Restoring.DroppingCollapses | json/jsoncpp.cpp:1358-1370 | A reader that allows for dropped nulls builds from the text without them what it builds from the full text of the document with every array of one null made empty |
| Restoring.ParseOfDropped | json/jsoncpp.cpp:1358-1370 | The same for parsing: the collapsed document in normal form |
| Restoring.ValidIsWritable | json/jsoncpp.cpp:1294-1384 | The document of a valid value is one the round trip theorems cover |
| Restoring.NoRealsReadBack | json/jsoncpp.cpp:1890-1905 | Nothing is asked of the library for a document without reals |
| RoundTrip.ReadsInteger | json/jsoncpp.cpp:1800-1878 | The printed text of any integer from -2^63 to 2^64 - 1, in any document context, is read back as that integer, tagged `intValue` where it fits |
| RoundTrip.ReadsReal | json/jsoncpp.cpp:1890-1905 | A `double` survives if its printed text is a number that is not an integer of 64 bits, and the library reads it back |
| RoundTrip.ReadsText | json/jsoncpp.cpp:1918-1969 | A quoted string in any document context is read back as its normal form |
| RoundTrip.ReadsString | json/jsoncpp.cpp:1660-1670 | The token of a quoted string ends exactly at its closing quote, and its body decodes to the normal form of the string |
| RoundTrip.ReadsNumber | json/jsoncpp.cpp:1634-1659 | An optional minus sign, digits, an optional point with digits and an optional exponent, followed by whitespace, a comma, a closing bracket, a NUL byte or nothing, are one number token that covers them exactly |
| RoundTrip.NumberEndWithin | json/jsoncpp.cpp:1634-1659 | The extent that `readNumber` finds does not depend on which terminating byte follows |
| RoundTrip.NumeralIsCovered | json/jsoncpp.cpp:1634-1659 | `readNumber` covers every such text in full |
| RoundTrip.CoveredIsNumeral | json/jsoncpp.cpp:1634-1659 | A text that starts with a digit and is covered in full is such a number |
| RoundTrip.ReadsKeyword | json/jsoncpp.cpp:1460-1471 | `null`, `true` and `false` are one token each, whatever follows |
| RoundTrip.ParseOfLayout | json/jsoncpp.cpp:1248-1292 | Parsing any layout of any document, with any names, dropped nulls or not, any features and any previous root, throws, fails with a given kind of error or succeeds exactly as the verdict computed from the document says, and unless it throws or fails so leaves exactly the value built from it, at the end of the text, refused only as a scalar root |
| RoundTrip.ParseOfEnding | json/jsoncpp.cpp:1248-1292 | The same where the document ends at the end of the text or at a NUL byte |
| RoundTrip.RootOfEnding | json/jsoncpp.cpp:1254-1292 | The same from any position on |
| RoundTrip.ReadsValue | json/jsoncpp.cpp:1294-1384 | `readValue` on any layout of a document followed by a comma, a closing bracket, a NUL byte or nothing has exactly the outcome of the verdict, and on success stops in front of what follows |
| RoundTrip.ReadsItems | json/jsoncpp.cpp:1748-1788 | The loop of `readArray`, started at any element, collects the remaining elements under ascending indices up to the first problem; it misses a dropped null only in front of the closing bracket |
| RoundTrip.ReadsMemberList | json/jsoncpp.cpp:1684-1746 | The loop of `readObject`, started at any member, assigns every remaining member under the name it is read back by, up to the first problem: a name too long, a rejected duplicate, or a problem in a value |
| RoundTrip.ReadsDropped | json/jsoncpp.cpp:1358-1370 | In place of a dropped null the reader meets the separator or bracket after it, which it un-reads or reports as the features say |
| RoundTrip.DroppedGoesOn | json/jsoncpp.cpp:1753-1765 | A dropped null that is not lost is not taken for the end of the array |
| Outcomes.BuiltHas | json/jsoncpp.cpp:1724-1727 | The object read back has a member of a name if and only if some written name is read back as it |
| Outcomes.LastWins | json/jsoncpp.cpp:1724-1727 | Of several members whose names are read back as one, the last one's value remains |
| Outcomes.BuiltMembersSorted | json/jsoncpp.cpp:1724-1727 | Whatever the names, the members read back stand in strict key order |
| Outcomes.TwoNamesReadAsOne | json/jsoncpp.cpp:1714-1717 | The names 0x80 and 0x81 are both read back as the replacement character: an object with both comes back with one member, or fails with a duplicate key where duplicates are rejected |
| Leniency.LoneMinus | json/jsoncpp.cpp:1634-1659 | A lone minus sign is read as the number 0 |
| Leniency.TextAfterNul | json/jsoncpp.cpp:1494-1496 | Behind any layout of any document a NUL byte ends the text: whatever bytes follow it, parsing has the outcome the verdict on the document names, even where extra text is refused, and the cursor stops right behind the NUL byte |
| Leniency.StandsOnce | json/jsoncpp.cpp:1494-1496 | The NUL byte that ends the document is the one behind the layout, not another one in the bytes that follow |
| Leniency.GoesOnBehind | json/jsoncpp.cpp:1731-1743 | After a member's value the loop of `readObject` goes on behind one token, or ends with the members read so far |
| Leniency.SwallowsIff | json/jsoncpp.cpp:1738-1742 | That token is no comma if and only if a comment follows the value and the next token that is no comment is neither a comma nor a closing brace |
| Leniency.SwallowedNumber | json/jsoncpp.cpp:1738-1742 | In an object with a comment and a stray number after a value the number is swallowed and the object accepted, whatever the features |
| Dialects.ByteOrderMark | json/jsoncpp.cpp:1254-1262 | In front of any layout of any document a byte order mark is passed over if and only if `skipBom` is set |
| Dialects.TextBehind | json/jsoncpp.cpp:1270-1277 | Any further token behind a document that reads well is refused if and only if `failIfExtra` is set |
| Dialects.CommentedDocument | json/jsoncpp.cpp:1386-1394 | A comment in front of any layout of any document is passed over if and only if comments are allowed |
| Dialects.CommentBeforeValue | json/jsoncpp.cpp:1294-1300 | The same in front of any value |
| Dialects.CommentBeforeName | json/jsoncpp.cpp:1689-1694 | In front of a name comments are passed over whatever the features say |
| Dialects.CommentBehindElement | json/jsoncpp.cpp:1774-1780 | Behind an element likewise |
| Dialects.CommentBehindDocument | json/jsoncpp.cpp:1270-1277 | Behind a document they are passed over where allowed, and extra text where not |
| Dialects.BraceForName | json/jsoncpp.cpp:1695-1699 | A closing brace in place of a name ends the object if trailing commas are allowed or the last name read is empty |
| Dialects.TrailingCommaInObject | json/jsoncpp.cpp:1684-1746 | Any object that reads well, with a comma behind its last member, is accepted if and only if trailing commas are allowed or the last name is empty, and otherwise fails with a missing name |
| Dialects.BracketForElement | json/jsoncpp.cpp:1753-1765 | A closing bracket behind a comma ends the array, stands for a null, or is an error, as the features say |
| Dialects.NumberForName | json/jsoncpp.cpp:1703-1709 | A number in place of a name is accepted if and only if numeric keys are allowed, and names the member by its decimal notation |
| Dialects.NoName | json/jsoncpp.cpp:1700-1712 | What else stands in place of a name is an error, a bad string included |
| Dialects.BehindName | json/jsoncpp.cpp:1710-1722 | A name of 2^30 bytes throws; duplicates are reported at the name, and anything but a colon behind it where it stands |
| Dialects.BehindValue | json/jsoncpp.cpp:1729-1744 | What may stand behind a member's value and behind an element, and which error is reported where |
| Dialects.BehindFailure | json/jsoncpp.cpp:1728-1729 | A failed value ends its container, recovered up to the container's own closing bracket |
| Dialects.NumberValue | json/jsoncpp.cpp:1800-1905 | Integers are signed up to 2^63 - 1 and unsigned up to 2^64 - 1; all other numbers go to the library |
| Dialects.SpecialValues | json/jsoncpp.cpp:1331-1374 | The special floats, and the error for a token that is no value |
| Dialects.DecodedValues | json/jsoncpp.cpp:1310-1330 | Numbers and strings, and the errors of those that cannot be decoded |
| Dialects.RecoverStopsBehind | json/jsoncpp.cpp:2031-2042 | Recovery stops right behind the first token of the kind looked for, or behind the last |
| Utf8.Utf8ToCodepoint | json/jsoncpp.cpp:4262-4311 | The permissive decoder reads at least one byte and never past the end, never yields a surrogate, and yields a value below 0x80 only for a byte below 0x80 |
| Utf8.ScanUndoesEncode | json/jsoncpp.cpp:4262-4311 | On a well-formed UTF-8 character (RFC 3629, section 4) the permissive decoder reads exactly that character, and encoding gives its bytes back |
| Utf8.EncodeIsWellFormed | json/jsoncpp.cpp:125-151 | Encoding a scalar value puts one well-formed character in front of well-formed text |
| Utf8.DecoderIsShortest | json/jsoncpp.cpp:4262-4311 | The decoder reads as many bytes as the lead byte announces, or one if there are not so many, and accepts no overlong form |
| Utf8.DecoderReadsLoosely | json/jsoncpp.cpp:4262-4311 | It reads every scalar value whatever the length marks of the bytes after the lead byte |
| Chars.NamedBytes | json/jsoncpp.cpp:1400-1500 | The bytes that reader and writers compare with are the characters `"'*+,-./:[\]{}` and whitespace; the keywords are `null`, `true` and `false` |
| Chars.CharacterClasses | json/jsoncpp.cpp:1507-1515 | Whitespace is space, tab, line feed and carriage return, and digits are the ten ASCII digits |
| Quoting.ValueToQuotedStringN | json/jsoncpp.cpp:4349-4424 | The escaping loop, with its shortcut for plain text, computes `Quoted`, for every byte string and both `emitUTF8` settings |
| Quoting.EscapeOne | json/jsoncpp.cpp:4364-4421 | One turn of the loop appends one escape and moves the cursor over exactly the bytes it stands for |
| Quoting.DoesAnyCharRequireEscaping | json/jsoncpp.cpp:4254-4260 | True if and only if some byte is a backslash, a quote, below 0x20 or above 0x7F |
| Quoting.EscapeOfPlainText | json/jsoncpp.cpp:4354-4355 | The shortcut is sound: text without such bytes escapes to itself |
| Quoting.EscapeIsBody | json/jsoncpp.cpp:4349-4424 | An escaped string pairs every backslash with the byte after it and holds no bare quote |
| Quoting.ScanFindsClosingQuote | json/jsoncpp.cpp:1660-1670 | `readString` ends exactly at the closing quote the writer put, wherever the string stands |
| Quoting.ScanIff | json/jsoncpp.cpp:1660-1682 | For either quote the scan succeeds if and only if a body with paired backslashes and the closing quote follow, and stops right behind them |
| Quoting.WritesAscii | json/jsoncpp.cpp:4364-4421 | Which ASCII bytes are written as a letter, as four digits or as they are, with `emitUTF8` or not |
| Quoting.NoControlCharacters | json/jsoncpp.cpp:4364-4421 | No control character is ever written, as section 7 of RFC 8259 demands |
| Quoting.HexDigitsAre | json/jsoncpp.cpp:4312-4343 | The writer uses lower case digits, the reader accepts either case |
| Quoting.ReadsEscape | json/jsoncpp.cpp:1925-1961 | The eight escapes of one character, and the two errors |
| Quoting.ReadsUnicodeEscape | json/jsoncpp.cpp:1971-2020 | A Unicode escape stands for its code point, a high surrogate needs a second escape, and each of the four errors occurs where it should |
| Quoting.ReadsPlain | json/jsoncpp.cpp:1920-1924 | Other bytes stand for themselves, but a double quote ends the text even inside single quotes |
| Quoting.UnescapeUndoesEscape | json/jsoncpp.cpp:1918-2020 | `decodeString` always accepts what the writer quoted and returns its normal form, for arbitrary input bytes |
| Quoting.UnescapeUndoesUnit | json/jsoncpp.cpp:1918-2020 | One escape decodes to the bytes it stands for, whatever follows it |
| Quoting.UnescapeAstral | json/jsoncpp.cpp:4412-4417 | The surrogate pair of a code point above 0xFFFF is joined again to that code point, cut to twenty bits above 0x10000 |
| Quoting.HexRoundTrip | json/jsoncpp.cpp:4330-4347 | Four hexadecimal digits decode to the 16-bit value they were printed from |
| Quoting.ReadCodePoint | json/jsoncpp.cpp:1971-1994 | A unicode escape yields at most 0x10FFFF and consumes four or ten bytes that are there |
| Quoting.NormalOfRawBytes | json/jsoncpp.cpp:4396-4402 | With `emitUTF8` every byte string survives quoting and unquoting |
| Quoting.NormalOfWellFormed | json/jsoncpp.cpp:4403-4418 | Without it every well-formed UTF-8 string survives, NUL, quotes and astral characters included |
| Quoting.KeptIffWellFormed | json/jsoncpp.cpp:4403-4418 | Without it a string survives if and only if it is well-formed UTF-8 |
| Quoting.NormalIsWellFormed | json/jsoncpp.cpp:4403-4418 | Whatever the bytes, what is read back is well-formed UTF-8 |
| Quoting.NormalIsIdempotent | json/jsoncpp.cpp:4349-4424 | Quoting and unquoting a second time changes nothing |
| Quoting.QuotedIsPrintable | json/jsoncpp.cpp:4403-4418 | Without `emitUTF8` the quoted text consists of bytes 0x20 to 0x7F, whatever the input |
| Decimal.UIntToString | json/jsoncpp.cpp:167-173 | Prints the digits backwards into the buffer, ends them with NUL, and touches nothing else; no step leaves the buffer |
| Decimal.ValueToString | json/jsoncpp.cpp:4168-4182 | Prints every signed 64-bit value in the 25-byte buffer without underflow or wrap-around, the least one included |
| Decimal.ValueToStringUnsigned | json/jsoncpp.cpp:4184-4190 | Prints every unsigned 64-bit value |
| Decimal.DigitsFit | json/jsoncpp.cpp:154-166 | A 64-bit value has at most 20 digits, so sign and terminator fit the buffer |
| Decimal.DigitsAre | json/jsoncpp.cpp:167-173 | Decimal notation without leading zeros |
| Decimal.DecodeNumber | json/jsoncpp.cpp:1800-1878 | The digit loop takes the integer path if and only if the token is an optional minus and digits with a value from -2^63 to 2^64 - 1, returns that value, and no 64-bit step wraps around |
| Decimal.PrefixValue | json/jsoncpp.cpp:1846-1863 | Giving up early is right: once a prefix exceeds the threshold the whole token is out of range |
| Decimal.DecodeUndoesPrint | json/jsoncpp.cpp:1800-1878 | Decoding undoes printing on exactly the integers from -2^63 to 2^64 - 1 |
| Decimal.Limits | json/jsoncpp.cpp:1800-1878 | The first integers outside the two 64-bit ranges are not decoded as integers, the last inside are |
| Values.KeyLessTransitive | json/jsoncpp.cpp:2721-2736 | The key order is transitive |
| Values.KeyLessTotal | json/jsoncpp.cpp:2721-2736 | Two different keys are ordered one way or the other |
| Values.KeyLessIrreflexive | json/jsoncpp.cpp:2721-2736 | No key is less than itself |
| Values.TextLessIff | json/jsoncpp.cpp:2721-2736 | The first byte in which two names differ decides, and a name comes after its proper prefixes |
| Values.KeyLessIs | json/jsoncpp.cpp:2721-2736 | Indices are ordered as numbers and names as texts |
| Values.PutKeepsOrder | json/jsoncpp.cpp:3483-3499 | Assigning through `operator[]` keeps the map in strict key order |
| Values.PutReads | json/jsoncpp.cpp:3483-3499 | The assigned key reads as the assigned value, in the map as it is after `operator[]` and after the assignment |
| Values.LookupSelf | json/jsoncpp.cpp:3374-3385 | In a sorted map every node is found under its own key |
| Values.StoreThenAt | json/jsoncpp.cpp:2050-2050 | Reading through a pointer of the node stack returns what was assigned through it |
| Values.StoreTwice | json/jsoncpp.cpp:2050-2050 | A later assignment through the same pointer hides an earlier one |
| Values.StoreChild | json/jsoncpp.cpp:1724-1725 | A pointer one level deeper reads and assigns one key of the value above it and nothing else |
| Values.PutHas | json/jsoncpp.cpp:3483-3499 | After an assignment the map has the assigned key and the keys it had, and no others |
| Values.PutLeaves | json/jsoncpp.cpp:3483-3499 | Assigning one key leaves what every other key reads as |
| Documents.MeaningOfEmbed | json/jsoncpp.cpp:1871-1875 | The value the reader builds for a document, with `intValue` wherever it fits, means that document |
| Documents.MeaningIsOrdered | json/jsoncpp.cpp:3659-3672 | The document of a valid value lists the member names of every object in strictly ascending order |
| Documents.MeaningOfElement | json/jsoncpp.cpp:3374-3385 | What `value[index]` refers to means item `index`, a hole meaning null, and nests less deeply |
| Documents.MeaningOfMember | json/jsoncpp.cpp:3527-3538 | What `value[name]` refers to means the member of that name and nests less deeply |
| Documents.MeaningOfScalar | json/jsoncpp.cpp:2916-2930 | Null, integers of either tag, reals, strings and booleans as documents |
| Lexing.SkipSpaces | json/jsoncpp.cpp:1507-1515 | Passes over exactly the whitespace up to the first other byte |
| Lexing.TokenAt | json/jsoncpp.cpp:1396-1505 | Every token starts at its first byte, is not empty and ends inside the document; a string token has room for both quotes |
| Lexing.ReadToken | json/jsoncpp.cpp:1396-1505 | Every call consumes a byte or reports the end of the stream at the end of the document |
| Lexing.NonComment | json/jsoncpp.cpp:1690-1693 | Passing over comments ends, at a token that is no comment |
| Lexing.SkipCommentTokens | json/jsoncpp.cpp:1386-1394 | The same with the features deciding whether comments are passed over |
| Lexing.PunctuationTokens | json/jsoncpp.cpp:1400-1419 | Each of the six punctuation marks is a token of its own, and a NUL byte ends the stream |
| Lexing.KeywordTokens | json/jsoncpp.cpp:1460-1471 | A keyword token stands exactly where the whole keyword does |
| Lexing.SpecialTokens | json/jsoncpp.cpp:1440-1493 | `NaN`, `Infinity`, `+Infinity` and `-Infinity` are tokens exactly where they stand and the features allow them |
| Lexing.NumberTokens | json/jsoncpp.cpp:1427-1459 | A number begins with a digit or with a sign that no `I` follows |
| Lexing.StringAndCommentTokens | json/jsoncpp.cpp:1420-1439 | Strings in double quotes, in single quotes where allowed, and comments |
| Lexing.ErrorTokens | json/jsoncpp.cpp:1396-1505 | Where a token that is none ends |
| Lexing.CStyleCommentIs | json/jsoncpp.cpp:1604-1616 | A comment in stars and slashes ends behind the first closing mark |
| Lexing.UnclosedComment | json/jsoncpp.cpp:1604-1616 | Without one it takes the whole document, and is accepted if the document ends in a slash |
| Lexing.CppCommentIs | json/jsoncpp.cpp:1618-1632 | The other comment ends behind the first line feed, carriage return, or both |
| Parsing.ReadScalar | json/jsoncpp.cpp:1316-1374 | A scalar value or an error; un-reading a dropped placeholder never moves the cursor in front of the token |
| Parsing.ReadValue | json/jsoncpp.cpp:1294-1384 | On every byte input and feature setting reading ends inside the document, never behind its start, and succeeds if and only if it adds no error, unless it throws; the recursion ends although a dropped placeholder is un-read |
| Parsing.ReadMembers | json/jsoncpp.cpp:1684-1746 | The same for the loop of `readObject` |
| Parsing.NamedMember | json/jsoncpp.cpp:1712-1742 | The same from the member name on, with the key length limit and duplicate rejection |
| Parsing.AfterMember | json/jsoncpp.cpp:1728-1742 | The same after the member's value, including the token that is swallowed after a comment |
| Parsing.ReadElements | json/jsoncpp.cpp:1748-1788 | The same for the loop of `readArray` |
| Parsing.AfterElement | json/jsoncpp.cpp:1769-1787 | The same after an element |
| Parsing.Recover | json/jsoncpp.cpp:2031-2042 | Recovery ends, inside the document |
| Parsing.Fail | json/jsoncpp.cpp:2044-2048 | Reporting and recovering fails with an error and ends inside the document |
| Parsing.Finish | json/jsoncpp.cpp:1272-1291 | The checks after the root value keep the value, and succeed if and only if no error has been added |
| Parsing.Parse | json/jsoncpp.cpp:1248-1292 | `parse` returns true exactly when `errors_` is empty, barring the stack-limit and key-length exceptions |
| Reader.OurReader.Parse | json/jsoncpp.cpp:1248-1292 | The method leaves root, cursor, errors and result as `Parsing.Parse` says, with an empty node stack, whatever an earlier document left behind |
| Reader.OurReader.CheckEnd | json/jsoncpp.cpp:1272-1291 | The checks after the root value compute `Finish` |
| Reader.OurReader.ReadValue | json/jsoncpp.cpp:1294-1384 | Computes `Parsing.ReadValue` on the value under the top pointer, changes nothing else of the document, and restores the node stack |
| Reader.OurReader.ReadScalarValue | json/jsoncpp.cpp:1316-1374 | Computes `ReadScalar` on the value under the top pointer |
| Reader.OurReader.ReadPlainValue | json/jsoncpp.cpp:1322-1374 | The cases in which the kind of the token alone decides |
| Reader.OurReader.ReadNoValue | json/jsoncpp.cpp:1358-1374 | In place of a missing value the separator is un-read or the error is recorded |
| Reader.OurReader.ReadChild | json/jsoncpp.cpp:1724-1727 | Pushing the pointer to a child, reading and popping assigns one key of the container and leaves the stack as it was |
| Reader.OurReader.PushChild | json/jsoncpp.cpp:1724-1725 | Pushes the pointer to the child, creating a null one where the key is missing |
| Reader.OurReader.SetCurrent | json/jsoncpp.cpp:1323-1326 | Replaces the value under the top pointer and nothing else |
| Reader.OurReader.ReadObject | json/jsoncpp.cpp:1684-1746 | The loop computes `Parsing.ReadMembers` and restores the node stack |
| Reader.OurReader.ReadMemberStart | json/jsoncpp.cpp:1690-1711 | A turn up to the member name |
| Reader.OurReader.ReadMemberName | json/jsoncpp.cpp:1700-1711 | Decodes the name of a member, from a string or a number |
| Reader.OurReader.ReadMember | json/jsoncpp.cpp:1712-1742 | A turn after the member name computes `NamedMember` |
| Reader.OurReader.ReadMemberValue | json/jsoncpp.cpp:1719-1742 | A turn from the colon on |
| Reader.OurReader.FinishMember | json/jsoncpp.cpp:1728-1742 | A turn after the member's value computes `AfterMember` |
| Reader.OurReader.ReadArray | json/jsoncpp.cpp:1748-1788 | The loop computes `Parsing.ReadElements` and restores the node stack |
| Reader.OurReader.ReadElement | json/jsoncpp.cpp:1765-1787 | A turn from the element on |
| Reader.OurReader.FinishElement | json/jsoncpp.cpp:1769-1787 | A turn after the element computes `AfterElement` |
| Reader.OurReader.ReadToken | json/jsoncpp.cpp:1396-1505 | Returns the token `Lexing.ReadToken`, true if and only if it is no error token, and leaves the cursor at its end |
| Reader.OurReader.ReadTokenBody | json/jsoncpp.cpp:1399-1505 | The switch on the first byte computes `TokenAt` |
| Reader.OurReader.ReadNonComment | json/jsoncpp.cpp:1690-1693 | The loop over comment tokens computes `NonComment` |
| Reader.OurReader.SkipCommentTokens | json/jsoncpp.cpp:1386-1394 | Computes `Lexing.SkipCommentTokens` |
| Reader.OurReader.SkipSpaces | json/jsoncpp.cpp:1507-1515 | The loop computes `Lexing.SkipSpaces` |
| Reader.OurReader.Match | json/jsoncpp.cpp:1527-1536 | True if and only if the pattern stands at the cursor, which then moves over it |
| Reader.OurReader.ReadComment | json/jsoncpp.cpp:1538-1570 | Computes `Lexing.ReadComment` |
| Reader.OurReader.ReadCStyleComment | json/jsoncpp.cpp:1604-1616 | The loop computes `Lexing.ReadCStyleComment` |
| Reader.OurReader.ReadCppStyleComment | json/jsoncpp.cpp:1618-1632 | The loop computes `CppCommentEnd` |
| Reader.OurReader.ReadNumber | json/jsoncpp.cpp:1634-1659 | The loops with one character of look-ahead leave the cursor at `NumberEnd` |
| Reader.OurReader.ReadString | json/jsoncpp.cpp:1660-1682 | The loop, for either quote, computes `ScanString` |
| Reader.OurReader.DecodeString | json/jsoncpp.cpp:1918-1969 | The loop computes `Unescape` on the bytes between the quotes, or adds the error it names |
| Reader.OurReader.DecodeUnicodeCodePoint | json/jsoncpp.cpp:1971-1994 | Computes `ReadCodePoint` |
| Reader.OurReader.DecodeUnicodeEscapeSequence | json/jsoncpp.cpp:1996-2020 | The loop over four digits computes `ReadHex4` |
| Reader.OurReader.DecodeNumberToken | json/jsoncpp.cpp:1790-1878 | Decodes a number token to the integer or `double` it stands for, or adds an error |
| Reader.OurReader.AddError | json/jsoncpp.cpp:2022-2029 | Appends one error and returns false |
| Reader.OurReader.RecoverFromError | json/jsoncpp.cpp:2031-2042 | The loop ends where `Recover` says and leaves the errors as they were |
| Reader.OurReader.AddErrorAndRecover | json/jsoncpp.cpp:2044-2048 | Adds one error and recovers |
| Reader.OurReader.GetNextChar | json/jsoncpp.cpp:2052-2056 | Returns the next byte and moves over it, or returns NUL at the end |
| Reader.AssignBelow | json/jsoncpp.cpp:1724-1727 | Entering a key and assigning below it is assigning the key |
| FastWriting.FastTextLays | json/jsoncpp.cpp:4455-4506 | The text of `FastWriter` is a layout of the document's tokens |
| FastWriting.FastIsFlat | json/jsoncpp.cpp:4455-4506 | The text is the tokens of the document one after the other and nothing else, but for a space behind the colon for YAML |
| FastWriting.FastWriter.Write | json/jsoncpp.cpp:4447-4453 | Returns the document's text, with a line feed unless switched off |
| FastWriting.FastWriter.WriteValue | json/jsoncpp.cpp:4455-4506 | Appends exactly the text of the value's document |
| FastWriting.FastWriter.WriteElements | json/jsoncpp.cpp:4482-4491 | The array loop, over `size()` places of a possibly sparse array |
| FastWriting.FastWriter.WriteMembers | json/jsoncpp.cpp:4492-4504 | The object loop, over the member names in map order |
| FastWriting.DropsNothingIffNullFree | json/jsoncpp.cpp:4457-4459 | Dropping nulls changes the text of exactly the documents that hold a null |
| FastWriting.OneNullText | json/jsoncpp.cpp:4457-4459 | With dropped nulls an array of one null and the empty array have the same text |
| StyledWriting.BuiltStyledStreamWriter.Write | json/jsoncpp.cpp:5000-5014 | What is added to the stream is the styled text of the document from depth 0 on, which lays out the same tokens that `FastWriter` writes |
| StyledWriting.BuiltStyledStreamWriter.WriteValue | json/jsoncpp.cpp:5015-5076 | Writes the styled text of the value at the current depth, or, while child texts are collected, pushes exactly its one string and leaves the stream alone |
| StyledWriting.BuiltStyledStreamWriter.WriteScalar | json/jsoncpp.cpp:5017-5044 | The scalar cases of the same |
| StyledWriting.BuiltStyledStreamWriter.WriteObjectValue | json/jsoncpp.cpp:5048-5074 | The object case, with the indentation restored |
| StyledWriting.BuiltStyledStreamWriter.WriteMembers | json/jsoncpp.cpp:5056-5070 | The member loop writes every member on its line |
| StyledWriting.BuiltStyledStreamWriter.WriteMember | json/jsoncpp.cpp:5057-5063 | One member: a new line at the depth, name, colon and value |
| StyledWriting.BuiltStyledStreamWriter.WriteArrayValue | json/jsoncpp.cpp:5078-5126 | The array case: on one line exactly where `OnOneLine` says, on several otherwise |
| StyledWriting.BuiltStyledStreamWriter.WriteLines | json/jsoncpp.cpp:5084-5109 | The multi-line form, from collected texts or not |
| StyledWriting.BuiltStyledStreamWriter.WriteElements | json/jsoncpp.cpp:5088-5106 | Its loop writes every element on its line; every index into the collected texts is in range |
| StyledWriting.BuiltStyledStreamWriter.WriteElement | json/jsoncpp.cpp:5089-5099 | One element: a new line at the depth, and its text |
| StyledWriting.BuiltStyledStreamWriter.WriteOnOneLine | json/jsoncpp.cpp:5110-5124 | The one-line form; there is exactly one collected text for every element |
| StyledWriting.BuiltStyledStreamWriter.IsMultilineArray | json/jsoncpp.cpp:5128-5153 | Decides by size, non-empty containers and line length in 32 bits, collects nothing or the text of every element, and writes nothing to the stream |
| StyledWriting.BuiltStyledStreamWriter.CollectChildValues | json/jsoncpp.cpp:5138-5150 | Collects the text of every element and adds up the length of the line |
| StyledWriting.BuiltStyledStreamWriter.PushValue | json/jsoncpp.cpp:5155-5160 | Collects the text or writes it, never both |
| StyledWriting.BuiltStyledStreamWriter.WriteIndent | json/jsoncpp.cpp:5162-5172 | Writes a line feed and the current indentation, or nothing if there is no indentation |
| StyledWriting.BuiltStyledStreamWriter.WriteWithIndent | json/jsoncpp.cpp:5174-5179 | Writes the text, on a new line unless one has just begun |
| StyledWriting.BuiltStyledStreamWriter.Indent | json/jsoncpp.cpp:5181-5181 | Deepens the indentation |
| StyledWriting.BuiltStyledStreamWriter.Unindent | json/jsoncpp.cpp:5183-5186 | Undoes `Indent`, never below the empty string |
| StyledWriting.BuiltStyledStreamWriter.constructor | json/jsoncpp.cpp:5236-5277 | The colon, null and line feed symbols of the builder; a writer with whitespace for indentation is ready to write, whether it drops nulls or not |
| StyledTexts.StyledLays | json/jsoncpp.cpp:5015-5126 | Whatever the settings, the styled text is a layout of the document's tokens |
| StyledTexts.ElementsStartLines | json/jsoncpp.cpp:5084-5109 | In an array that does not stay on one line every element starts a line after one more copy of the indentation, and the closing bracket starts one at the depth of the opening one |
| StyledTexts.NamesStartLines | json/jsoncpp.cpp:5048-5074 | The same for every name of an object and its closing brace |
| StyledTexts.ContainersStartLines | json/jsoncpp.cpp:5174-5179 | Behind a name, a container that takes several lines starts a line of its own at the depth of the name |
| StyledTexts.OneLineIff | json/jsoncpp.cpp:5128-5153 | With the comment style None an array goes on one line if and only if it has at most 24 elements, none a container with contents, and its line is shorter than 74 bytes (in 32 bits) |
| StyledTexts.StyledIsFast | json/jsoncpp.cpp:5162-5172 | Without indentation the styled text is what `FastWriter` writes, whatever the comment style |
| Examples.StyledResult | json/jsoncpp.cpp:5048-5074 | The default builder's text of a nested document, piece by piece |
| Examples.StyledItemsAre | json/jsoncpp.cpp:5084-5109 | The array in it, behind its name |
| Examples.OneLineResult | json/jsoncpp.cpp:5110-5124 | The same array with the comment style None |
| Examples.FastResult | json/jsoncpp.cpp:4455-4506 | What `FastWriter` writes for that document |
| Layout.LaysAppend | json/jsoncpp.cpp:5155-5160 | Layouts put one after the other lay out the tokens one after the other |
| Ordering.Irreflexive | json/jsoncpp.cpp:2916-2964 | No value is less than itself, NaN or not |
| Ordering.Transitive | json/jsoncpp.cpp:2916-2964 | `operator<` is transitive on trees without NaN, through nested maps |
| Ordering.Asymmetric | json/jsoncpp.cpp:2916-2964 | `operator<` never holds both ways on trees without NaN |
| Ordering.Total | json/jsoncpp.cpp:2916-2964 | Two different trees without NaN are ordered one way or the other |
| Ordering.Trichotomy | json/jsoncpp.cpp:2908-3012 | Without NaN exactly one of less, equal and greater holds, and `compare` tells which |
| Ordering.EqualIs | json/jsoncpp.cpp:2972-3012 | `operator==` relates exactly the identical trees without NaN |
| Ordering.SelfEqualIffNaNFree | json/jsoncpp.cpp:2972-3012 | A value equals itself if and only if it holds no NaN |
| Ordering.LessIs | json/jsoncpp.cpp:2916-2951 | Types in the order of their tags; within one type integers, reals, strings and booleans in the order of their contents |
| Ordering.ContainerLessIff | json/jsoncpp.cpp:2952-2959 | A container with fewer nodes is below; otherwise the first differing node decides, by its key or by its value |
| ArrayOps.ArrayValue.Append | json/jsoncpp.cpp:3554-3561 | Adds one element at the end of the sequence, keeping density |
| ArrayOps.ArrayValue.SwapDown | json/jsoncpp.cpp:3574-3576 | The assignment from a moved element exchanges two places and fills both |
| ArrayOps.ArrayValue.Insert | json/jsoncpp.cpp:3567-3579 | The downward chain of swaps is sequence insertion, on sparse arrays too; refused if and only if the index exceeds the size, and then nothing changes |
| ArrayOps.ArrayValue.Grow | json/jsoncpp.cpp:3340-3342 | The growing loop pads with null |
| ArrayOps.ArrayValue.Shrink | json/jsoncpp.cpp:3344-3346 | The shrinking loop removes exactly the places from the new size on |
| ArrayOps.PutAt | json/jsoncpp.cpp:3351-3365 | Assignment changes one place of the array and keeps the key order |
| ArrayOps.DemandAt | json/jsoncpp.cpp:3351-3365 | `operator[]` changes a hole into a null and nothing else |
| ArrayOps.EraseAt | json/jsoncpp.cpp:3642-3644 | Erasing a key removes one place and keeps the key order |
| ArrayOps.SizeIs | json/jsoncpp.cpp:3285-3306 | `size()` is the least bound beyond which nothing lies |
| ArrayOps.ArrayValue.RemoveIndex | json/jsoncpp.cpp:3624-3646 | Refused if and only if there is no node; otherwise it returns the element, moves the later places down, and deletes exactly the element from the sequence if and only if it was not last, or there is none before it, or the one before it is no hole; always so on dense arrays |
| ArrayOps.ArrayValue.Resize | json/jsoncpp.cpp:3332-3349 | Pads with null, or removes exactly the places from the new size on; the final assertion fails if and only if shrinking would end in a hole, never on a dense array |
| ArrayOps.ArrayValue.Assign | json/jsoncpp.cpp:3351-3365 | Assignment through `operator[]` changes one place and leaves holes in front of a place beyond the end |
| ArrayOps.RemovingUncoversHole | json/jsoncpp.cpp:3624-3646 | On an array with places 0 and 2 removing the last of three elements leaves one |
| ArrayOps.ShrinkingEndsInHole | json/jsoncpp.cpp:3343-3348 | On the same array the assertion at the end of `resize` to two elements fails |
| Latch.LatchSafety | memcpy.cpp:511-566 | Over every run of every number of ranks, samples and lists of owners: no spin kernel of a sample has ended before the first copy's rank released that sample; no rank is about to reset a latch while any spin kernel is live; after a release the rank's latch stays set until it leaves the round, and once a spin kernel has set the shared latch it stays set as long as a spin kernel of that sample is live; when a rank releases or drains it has launched exactly one spin kernel for every copy of the sample that it owns, and before the release none of the first copy's rank has moved |
| Latch.FirstOwns | multinode_memcpy.cpp:402-413 | From the owner lists alone: the rank that dispatching remembers is the first copy's, or that of the sample before where there is no copy; it is a rank, and it launches a copy in every sample in which any rank does |
| Latch.CopiesAre | memcpy.cpp:516-520 | A rank launches a spin kernel for every copy that names it as owner |
| Latch.HostKeepsInv | multinode_memcpy.cpp:466-486 | Every step of a rank's host code keeps the invariant |
| Latch.KernelKeepsInv | kernels.cu:765-783 | Every step of a spin kernel keeps the invariant |
| Latch.InitInv | memcpy.cpp:504-511 | The invariant holds before the first sample |
| Latch.RunKeepsInv | memcpy.cpp:511-566 | The invariant holds after every run |
| Latch.NoneLiveAtReset | multinode_memcpy.cpp:474-477 | When a rank is about to reset, no spin kernel of any rank is live |
| Latch.SameRound | multinode_memcpy.cpp:466-468 | While a spin kernel is live, every rank past its reset is in the same sample |
| Latch.HostKeepsInStep | multinode_memcpy.cpp:466-468 | No rank leaves a barrier that another has not entered |
| Latch.Progress | memcpy.cpp:511-566 | There is no deadlock: until every rank has finished, some step is possible |
| Latch.FirstMoves | multinode_memcpy.cpp:479-486 | While ranks wait for the shared latch, the first copy's rank or one of its spin kernels can move |
| Latch.RunIsBounded | memcpy.cpp:511-566 | No run is longer than a number fixed by the operations |
| Latch.MaximalRunCompletes | memcpy.cpp:511-566 | A run that cannot go on has finished every sample on every rank |
| Dispatch.NodeHelperMulti.DispatchMemcpy | multinode_memcpy.cpp:383-416 | A copy belongs to the source's rank if the source is preferred and has a context, otherwise to the destination's if that has one, otherwise to none; every rank keeps exactly its own copies in order, sources and destinations aligned, and remembers the first copy's rank |
| Dispatch.MineLength | multinode_memcpy.cpp:402-408 | Sources and destinations stay aligned after filtering |
| Dispatch.MineAt | multinode_memcpy.cpp:402-408 | Copy `i` stands in its owner's list right after the owner's earlier copies |
| Dispatch.MineCount | multinode_memcpy.cpp:402-408 | A rank keeps a copy for every time it is named as owner |
| Dispatch.KeptIs | multinode_memcpy.cpp:402-408 | The copies kept are exactly those owned, each once, in ascending order |
| Dispatch.EveryCopyHasOneOwner | multinode_memcpy.cpp:402-408 | The copies of all ranks together are as many as there are copies |
| Dispatch.GatherResults | multinode_memcpy.cpp:451-464 | Every rank ends with the same vector, whose entry `i` is copy `i`'s own result; no cursor leaves its results, and all results are used |
| Dispatch.LocalSum | multinode_memcpy.cpp:431-434 | The local loop adds up the rank's results |
| Dispatch.SumIs | multinode_memcpy.cpp:431-434 | A sum is the values added up |
| Dispatch.SumsAddUp | multinode_memcpy.cpp:430-439 | The sums of all ranks add up to the sum over all copies, in exact arithmetic |
| Dispatch.SumBandwidth | multinode_memcpy.cpp:430-439 | From dispatch to sum: every rank dispatches, measures and adds up on its own, and every rank returns the sum over all copies |
| Dispatch.FirstBandwidth | multinode_memcpy.cpp:441-449 | From dispatch to the first value: the rank that remembers being the first copy's offers the head of its own results, all ranks agree on it, and every rank returns what measuring the first copy gives |
| Dispatch.MineFirst | multinode_memcpy.cpp:402-413 | The owner of the first copy has it at the head of its own |
| Dispatch.MeasureAll | multinode_memcpy.cpp:451-464 | From dispatch to gathered vector: every rank dispatches and measures on its own, and every rank ends with the results of all copies in their original order |
| Dispatch.MeasureOwn | memcpy.cpp:472-477 | What a rank measures copy by copy is the filtered list of all results, and it remembers the first copy's rank |
| Dispatch.MineIsAt | multinode_memcpy.cpp:402-408 | Filtering commutes with whatever is measured copy by copy |
| PairSampling.Ranks.Calculate | multinode_memcpy.cpp:246-325 | Rank 0 shuffles all pairs and samples them if fewer are wanted |
| PairSampling.SelectPairs | multinode_memcpy.cpp:264-322 | For any shuffles, exactly `t` different ordered pairs of different GPUs, covering at least min(N, t + 1) of the GPUs |
| PairSampling.FirstPass | multinode_memcpy.cpp:274-295 | Every pair but the first brings a GPU not covered before, and all GPUs are covered if fewer than `t` pairs were chosen |
| PairSampling.FindPair | multinode_memcpy.cpp:282-294 | There always is an unchosen pair for an uncovered GPU, and the first one that names it is taken |
| PairSampling.Remaining | multinode_memcpy.cpp:299-305 | Lists exactly the pairs not chosen, each once |
| PairSampling.SecondPass | multinode_memcpy.cpp:297-321 | Fills up to exactly `t` pairs |
| PairSampling.AllPairs | multinode_memcpy.cpp:250-258 | The loops list every ordered pair of different GPUs exactly once, N(N - 1) in all |
| PairSampling.Serialize | multinode_memcpy.cpp:343-351 | Flattens the pairs for the broadcast |
| PairSampling.Deserialize | multinode_memcpy.cpp:360-363 | Rebuilding the pairs from the flat list gives them back |
| PairSampling.Ranks.GenerateTestPairs | multinode_memcpy.cpp:219-372 | On every call every rank, judging by its own cache, returns the same list, the same as on the call before; the ranks return early together or not at all, every collective is entered by all of them, and each takes part in one barrier and two broadcasts on the first call and in none later; the list is what the target promises |
| PairSampling.Ranks.Exchange | multinode_memcpy.cpp:327-372 | Every rank runs between the collectives on its own, all of them reach each collective with buffers of equal length, and all hold and return rank 0's list at the end |
| PairSampling.Ranks.SameBranch | multinode_memcpy.cpp:225-244 | Judged by its own cache every rank takes the same branch and would return the same list |
| PairSampling.Ranks.Enter | multinode_memcpy.cpp:225-327 | One rank up to the barrier: it returns early with its cached list, or waits, rank 0 with a list as promised |
| PairSampling.Ranks.AfterBarrier | multinode_memcpy.cpp:328-341 | One rank from the barrier to the broadcast of the size |
| PairSampling.Ranks.AfterSize | multinode_memcpy.cpp:343-357 | One rank makes ready a buffer of the size all ranks agree on |
| PairSampling.Ranks.AfterData | multinode_memcpy.cpp:359-371 | One rank rebuilds, caches and returns the list |
| PairSampling.Barrier | multinode_memcpy.cpp:327-327 | Completes only when every rank is in it |
| PairSampling.BroadcastSize | multinode_memcpy.cpp:340-341 | Completes only when every rank is in it, and gives all of them rank 0's size |
| PairSampling.BroadcastData | multinode_memcpy.cpp:357-357 | Completes only when every rank is in it with a buffer of equal length, and gives all of them rank 0's data |
| Pattern.XorShiftInjective | memcpy.cpp:51-55 | The xorshift step is injective on 32-bit words |
| Pattern.PatternsDiffer | memcpy.cpp:47-58 | The patterns of two different seeds differ at every word |
| Pattern.PatternHasNoZero | memcpy.cpp:47-58 | A nonzero seed never yields a zero word |
| Pattern.FillPattern | memcpy.cpp:47-58 | The loop fills the 2 MiB buffer with the pattern |
| Pattern.NextWord | memcpy.cpp:51-56 | The body of the loop computes the xorshift step |
| Pattern.ShiftsAre | memcpy.cpp:51-55 | The three shifts of the generator |
| Pattern.FirstWords | memcpy.cpp:104-118 | The first words of the source's and of the destination's pattern |
| Pattern.FilledRepeats | memcpy.cpp:88-102 | The pattern goes on word by word and repeats after 2 MiB |
| Pattern.BytesOf | memcpy.cpp:88-102 | The bytes of a word in memory, the least significant first |
| Pattern.CpuFill | memcpy.cpp:88-102 | The chunked fill writes the bytes of the repeated pattern to exactly the first `size` bytes, whatever the size |
| Pattern.Compare | kernels.cu:843-858 | For any order of the threads the error flag is set if and only if some word differs, and then reported exactly once |
| Pattern.CheckIsExact | memcpy.cpp:190-232 | The check finds wrong exactly the words the copy left out, so it passes if and only if the copy has written every checked word |
| Pattern.GpuFill | kernels.cu:811-819 | The kernel's threads, taken in any order, write the same words and nothing else, for a size that is no multiple of the block too |
| StridedCopy.CopyIsMemcpy | kernels.cu:150-195 | Under every schedule of any number of threads, chunk size and loop count: at any moment every element holds its old value or the source's, and when all threads have ended the destination equals the source on the copied prefix and is untouched beyond it |
| StridedCopy.OneWriter | kernels.cu:163-193 | A step writes at most the element its thread has come to, with the source's value, and no other thread ever comes to that index |
| StridedCopy.StepKeepsInv | kernels.cu:159-194 | Every load, store and loop test of any thread keeps the invariant |
| StridedCopy.ThreadStepKeeps | kernels.cu:159-194 | The pipe of twelve always holds the source's next elements of its thread, and the blocks of twelve never run over their end |
| StridedCopy.MemoryStepKeeps | kernels.cu:177-193 | A store changes one element of the thread's own |
| StridedCopy.IndexInRange | kernels.cu:152-157 | Element `k` of thread `t` lies in the copied prefix, and determines `t` and `k` |
| StridedCopy.OwnerOf | kernels.cu:152-157 | Every index of the copied prefix is an element of some thread |
| StridedCopy.StepShortens | kernels.cu:159-194 | Every step brings the end of its thread nearer by one |
| StridedCopy.LaunchMatchesAdjustedSize | kernels.cu:593-619 | The launcher returns `getAdjustedCopySize`, and its threads copy all of it if and only if the buffer is large, or has at most 1024 elements, or a multiple of 1024 |
| StridedCopy.MebibytesAreCovered | memcpy.cpp:637-669 | Buffers of whole MiB are copied up to the announced size, for every element width and number of multiprocessors |
| StridedCopy.LaunchIs | kernels.cu:593-619 | Threads, elements per thread and bytes of a launch, below 64 MiB and from there on |
| StridedCopy.TwelveInPipe | kernels.cu:159-194 | A thread in the unrolled part begins to store when it has loaded twelve elements |
| StridedCopy.ElementAfter | kernels.cu:159-194 | At every moment an element holds the source's value where its thread has stored it, and its old value everywhere else |
| StridedCopy.TurnsEnd | kernels.cu:159-194 | A thread that gets as many turns as it has steps left has ended, whatever the other threads do |
| StridedCopy.FairCopyIsMemcpy | kernels.cu:150-195 | Under every schedule that gives each thread its loops * (2 * chunk + 1) turns the kernel is a memory copy of its prefix |
| StridedCopy.FairExists | kernels.cu:150-195 | Every launch has such a schedule |
| CheckedCopy.CheckFindsTheRest | memcpy.cpp:190-232 | For elements of any number of words, at every moment of every run the check of any part of the filled prefix finds wrong exactly the words of the elements that no thread has stored yet, whatever the buffers hold beyond the prefix |
| CheckedCopy.WholeCopyPasses | kernels.cu:593-619 | For every supported width, with the announced bytes of both buffers filled and no others, after a real launch under any fair schedule the check of the announced size passes if and only if the buffer is large, or has at most 1024 elements, or a multiple of 1024 |
| CheckedCopy.LaunchFits | kernels.cu:593-619 | The threads of a launch never leave the buffers, for every supported width |
| CheckedCopy.MismatchesOfLaunch | kernels.cu:593-619 | The words found wrong then are exactly those of the announced elements beyond the launched threads |
| CheckedCopy.FillPrepares | memcpy.cpp:120-134 | Filling the announced bytes of both buffers is all that these results ask for |
| CheckedCopy.WarmUpKeepsPrepared | memcpy.cpp:517-527 | A warm-up copy, under any schedule, leaves the buffers in a state the same results cover |
| CheckedCopy.TwentyKibibytes | kernels.cu:593-619 | A buffer of 20 KiB at the default width of 16 bytes: 1280 elements are checked, 1024 are copied, and exactly the words of the other 256 are found wrong |
| CheckedCopy.DefaultBuffer | memcpy.cpp:635-665 | The default 512 MiB on a device with 132 multiprocessors: 33521664 of 33554432 elements are filled, copied and checked, and the check passes whatever the others hold |
| CheckedCopy.AnnouncedElements | memcpy.cpp:635-665 | The announced size is a whole number of elements, no more than the buffer has |
| CheckedCopy.WordAt | memcpy.cpp:190-214 | The check's word m is word m mod k of element m / k |
| SplitWarp.CheckIsExact | memcpy.cpp:241-248 | Under every schedule both buffers pass the check if and only if every launched thread has stored at least once: leaving out a single thread makes it fail |
| SplitWarp.EndedCopyIsFull | kernels.cu:198-219 | When all threads have ended after at least one repetition, both buffers hold the full pattern, beyond the launched threads too; with no repetition the check fails |
| SplitWarp.MismatchesAre | memcpy.cpp:241-248 | The words the check finds wrong are exactly those of the threads that write this buffer and have not stored yet |
| SplitWarp.StepKeepsInv | kernels.cu:198-219 | Every load and store of any thread keeps the invariant: each buffer holds the pattern where it is read |
| SplitWarp.StartInv | memcpy.cpp:152-168 | Filling and clearing by warp parity establish it |
| SplitWarp.StepShortens | kernels.cu:198-219 | Every step brings the end of its thread nearer and leaves the other threads alone |
| SplitWarp.Threads | kernels.cu:651-669 | Whole blocks of 1024 threads, or one short block: all quads have a thread if and only if there are at most 1024 or a multiple of 1024, and never 1024 are without |
| SplitWarp.OddWarpIs | kernels.cu:824-841 | The odd warps are the second half of every 64 threads |
| SplitWarp.MebibytesAreCovered | kernels.cu:824-841 | For whole MiB every quad is cleared in the buffer that its thread writes, and the check passes if and only if every quad has been stored |
| SplitWarp.ClearByWarpParity | kernels.cu:824-841 | The threads, taken in any order, clear exactly the quads of the chosen warps below the number of threads |
| SplitWarp.TurnsEnd | kernels.cu:198-219 | A thread that gets as many turns as it has steps left has ended |
| SplitWarp.FairCopyIsFull | kernels.cu:198-219 | Under every schedule that gives each thread two turns a repetition both buffers end with the full pattern and pass the check |
| SplitWarp.FairExists | kernels.cu:198-219 | Every launch has such a schedule |
| PointerChase.BuildOnDevice | testcase.cpp:77-89 | Builds the ring node by node from byte offsets |
| PointerChase.BuildOnHost | testcase.cpp:92-109 | Builds the same ring from array indices, for nodes of any width, and nothing in a buffer without nodes |
| PointerChase.Chase | kernels.cu:342-353 | Every access stays in the buffer, and after `k` of them the chase is at node (start + k * stride) mod n |
| PointerChase.NextIsPermutation | testcase.cpp:91-96 | The links form a permutation of the nodes |
| PointerChase.FollowIs | kernels.cu:345-347 | `k` accesses from node `i` reach node (i + k * stride) mod n |
| PointerChase.PeriodIs | kernels.cu:345-347 | A chase is back at its node after exactly the multiples of n / gcd(n, stride) accesses |
| PointerChase.OrbitIsResidueClass | kernels.cu:345-347 | The nodes a chase visits are exactly those in the residue class of its start modulo gcd(n, stride), each within the first n / gcd(n, stride) accesses |
| PointerChase.OrbitHasNoRepeats | kernels.cu:345-347 | The first n / gcd(n, stride) nodes of a chase all differ |
| PointerChase.GcdIsGreatest | kernels.cu:345-347 | The divisor in these statements is the greatest common divisor |

## Left out

- CUDA, NVML and MPI calls, allocation, contexts, streams and events: only the ordering and
  shared-memory effects named above are kept.
- Latch.LatchSafety: memory is sequentially consistent, resets are complete when the call
  returns, and the timeout of the spin kernels is not modelled; a round is one sample, and the
  end of an operation is not visible to the latch.
- Dispatch.GatherResults: a broadcast is one step on the values of all ranks.
- Dispatch.NodeHelperMulti.DispatchMemcpy: contexts are a flag; which context is current is not modelled.
- Dispatch.SumBandwidth: sums are exact; rounding of `double` and the order of the reduction are
  not modelled.  `calculateTotalBandwidth` combines measured times and is left out.
- PairSampling.Ranks.GenerateTestPairs: the number of ranks and the target are fixed for a run,
  the target is -1 or more, a collective is one step once every rank is in it, between
  collectives the ranks run one after the other (they share nothing there), and a shuffle is
  an arbitrary permutation instead of the seeded generator.
- Pattern.Compare: the threads of the kernel run one after the other, in any order; the
  compare-and-swap on the error flag is one step.
- StridedCopy.CopyIsMemcpy: source and destination do not overlap, and thread indices fit 32
  bits; so in SplitWarp and Pattern.
- CheckedCopy.WholeCopyPasses: an element of several words is loaded and stored in one step.
- PointerChase.Chase: the other launches, `mix64` and the bandwidth kernel's choice of start
  nodes are left out; a node is its `next` field.
- JsonTheorems.FastRoundTrip: reals are covered as far as the library reads its own text back,
  see Restoring.RealsReadBack.
- Reader.OurReader.AddError: the third argument, the place inside a string, is not kept, nor are
  line numbers and formatted messages; an error is its message and its token.
- Reader.OurReader.Parse: comments are skipped but not collected, and source offsets are not
  kept.  Array indices and sizes are unbounded, although the code counts in 32 bits.
- Reader.OurReader.ReadString: the round trips are about double quotes, which is what the writers
  use.
- Quoting.ValueToQuotedStringN: the null pointer, for which the code returns an empty text, is
  not a value of the model.
- Values: a `double` has no sign of zero; the `Value` of a string is never a null pointer.
- Floating-point text (`decodeDouble`, the `snprintf` branch of `valueToString`) and the
  settings for it: parameters of the model.
- StyledWriting.BuiltStyledStreamWriter.Write: values carry no comments and indentation is
  whitespace; the ending line feed symbol of the builder is empty.
- The deprecated `Reader`, `StyledWriter` and `StyledStreamWriter`, `Path` and the iterators:
  they repeat the classes modelled or add little to them.
- The legacy host-read kernels, the multicast instructions, option parsing, the test case
  tables, the output classes and the scripts: wiring and printing.
