# Verification of the path of an IRC line

This project models the parts of the IRC client that a line of text passes through on its way in and out, and
proves what they do.

* **Formatting** (`src/format.h`, `src/format.cc`): the writer that formats integers and strings in place, its
  growable array, the digit counters and decimal printers, and the single-pass parser of format strings.
  The imperative writer and parser (`Writers`, `FormatParsers`) are proved against pure references: a layout of
  fill, sign, prefix and digits (`Layout`), and a two-phase parser and renderer (`Templates`).
  The references are then related to something independent of them: numerals are read back (`Numerals`),
  and templates are printed from a syntax and parsed again (`TemplateGrammar`, `TemplateLaws`).
  What they mean is stated a second time without them, on the characters: where the parts of a number or text stand
  (`LayoutLaws`), which fields and templates are accepted and how others are refused (`TemplateReadings`, `Acceptance`),
  and what each kind of argument prints (`FieldLaws`).
* **Buffer lists** (`buffer.hpp`, `buffers_iterator.hpp`): copying between lists of possibly empty buffers, and
  iterating over their bytes, against the one flattened sequence (`Buffers`, `BufferCopy`, `BuffersIterators`).
* **The stream buffer** (`basic_streambuf.hpp`): five positions in one array, against a bounded queue (`StreamBuffers`).
* **Reading until a delimiter** (`impl/read_until.hpp`): the partial search and the operation that resumes it
  (`ReadUntil`).
* **The session** (`src/irc-client.cpp`): a transition system over completed operations (`SessionRuns`), what
  all its runs have in common (`SessionFraming`, `SessionProgress`), a class whose handlers perform its
  steps on the stream buffer (`Sessions`), and the outgoing commands (`IrcCommands`). Lines are those of
  section 2.3 of RFC 2812: they end with a carriage return and a line feed (`Framing`).

Pointers are offsets into arrays. Memory that buffers refer to is one array of characters.
Bytes and `char` are Dafny's `char`, a C string is the text in front of its NUL, sizes are natural numbers, and integers are unbounded except where the code's
32- and 64-bit arithmetic shows (`MachineInts`, `ParseUInt`). Exceptions are results.
`{:induction false}` marks lemmas whose induction is written out.

Check it with `dafny verify dfyconfig.toml --resource-limit 2000000 --verification-time-limit 0`.

## Where the code differs from what one may expect

The model follows the code. Each of these is stated by a lemma or a contract.

* `Array::append` asks `Grow` for the number of new elements, not for the new size. `OutputArray.Array.Append` says
  exactly when the copy stays in bounds, and `FormatParsers.FormatParser.Format` exactly for which templates, arguments
  and writers all literal runs do (`RunsFit`). Templates of at most half the capacity do (`SmallTemplatesFit`);
  a template of 752 characters for a new writer does not (`LongTemplateDoesNotFit`).
* `ParseUInt` misses some 32-bit overflows (`ParseUIntWraps`, `WrapUnnoticed`).
* `{:}` followed by an alignment character in the literal text picks that alignment up. Built-in arguments print
  the same; a custom argument sees it (`EmptySpecLooksAhead`, `BareAlignmentShowsNothing`, `CustomSeesTheNextCharacter`).
* The numeric alignment puts the fill between the sign and the base prefix, so a zero-filled `#x` reads
  `00000x2a` (`Layout.NumberLayout` is the reference).
* A stray closing brace loses the literal text before it back to the last field or escape (`Templates.OutcomeOf`,
  through `Flushed`).
* `prepare` moves the content before it finds that there is no room, and then throws with the positions
  unchanged. The content is intact exactly if it repeats itself at the distance of the move (`SmearedIntact`).
  `overflow` goes through the same code but loses nothing: it fails only when there is nothing to move.
* A read aborted while the socket is open falls through to the extraction and hands the lexer a buffer of
  two NULs (`EmptyBuffers`).
* A line that does not fit the buffer ends the reading without any signal (`LongLineStalls`). The session's buffer
  has the default maximum, the largest `size_t` (src/irc-client-internal.hpp:27), so this needs a line of that length.
* A message that contains a line end is sent as two lines (`WireReads`, `CommandsArrive`).

## Model

| member | source | states |
|---|---|---|
| `DigitCount.CountDigits64` | src/format.h:401-406 | The multiply-shift guess corrected by one table look-up is the length of the canonical decimal numeral, for every 64-bit value; the index stays inside the table |
| `DigitCount.CountDigits32` | src/format.h:409-412 | The same for every 32-bit value and the 32-bit table |
| `DigitCount.GuessTable` | src/format.h:404 | For every bit length from 1 to 64 the guess is at most 19 (9 up to 32 bits) and the power of ten with that exponent brackets the values of that length |
| `DigitCount.GuessRow` | src/format.h:404 | Bit lengths that share a guess need checking only at the ends of their run |
| `DigitCount.TableIsPowers` | src/format.cc:153-172 | Entry t of the tables, t at least 1, is 10 to the power t |
| `DigitCount.OrOneKeepsPower` | src/format.h:404 | Setting the low bit never lifts a value to a power of ten it was below, except the first |
| `DigitCount.CountDigitsLoop` | src/format.h:416-429 | The loop that drops four digits a step returns the length of the decimal numeral of every value |
| `DigitCount.CountsAgree` | src/format.h:401-429 | The 32-bit and 64-bit versions agree where both apply |
| `DigitCount.CountDigitsBracket` | src/format.h:399-406 | The count d satisfies 10^(d-1) <= n < 10^d, is 1 for zero and never above 20 |
| `Numerals.NumeralReads` | src/format.h:434-455 | A numeral without leading zeros reads back as its value, in every base from 2 to 16 |
| `Numerals.NumeralUnique` | src/format.h:434-455 | A canonical digit string is the numeral of what it reads as: no other text has that value |
| `Numerals.NumeralLength` | src/format.h:399-400 | The length of a numeral and the two powers of the base around its value |
| `Numerals.DigitCountUnique` | src/format.h:399-400 | The two power bounds determine the number of digits |
| `Numerals.NumeralTwoSteps` | src/format.h:438-447 | Two digits at a time give the numeral that one at a time gives |
| `MachineInts.MagnitudeIsAbs` | src/format.h:1229-1233 | Converting to the unsigned main type and negating there yields the absolute value of every value of every type, the least one included |
| `DecimalPrinters.DigitPairs` | src/format.cc:146-151 | The pair table holds at 2i and 2i+1 the two digits of every i below 100 |
| `DecimalPrinters.PairStep` | src/format.h:438-447 | A table pair is the end of the numeral, and the quotient by 100 prints what is in front of it |
| `DecimalPrinters.FormatDecimal` | src/format.h:435-455 | Given the digit count, writes exactly the numeral into those cells and no other cell |
| `DecimalPrinters.FormatDec` | src/format.h:1841-1860 | Writes sign and numeral of any value of any type, returns the end, and touches nothing else |
| `DecimalPrinters.FormatInt.Unsigned` | src/format.h:1807-1809 | The class holds the text of every unsigned 64-bit value, inside its cells |
| `DecimalPrinters.FormatInt.Signed` | src/format.h:1793-1806 | The class holds the signed text of every signed value but the least 64-bit one, whose negation overflows |
| `DecimalPrinters.FormatInt.FormatDecimal` | src/format.h:1772-1791 | Writes the numeral backwards, ending in front of the last cell, and touches nothing else |
| `DecimalPrinters.FormatInt.CStr` | src/format.h:1826-1829 | The terminator goes behind the text and does not change it |
| `DecimalPrinters.BufferSizeSuffices` | src/format.h:1765-1768 | 22 cells hold the text and terminator of every value the class can be given |
| `DecimalPrinters.SignedTextReads` | src/format.h:1841-1860 | Printing a signed value inverts reading it |
| `Writers.DecimalPathsAgree` | src/format.h:1225-1245 | The plain integer layout of the writer is the text that `FormatDec` and the class print |
| `OutputArray.Array.Grow` | src/format.h:292-299 | Keeps size and content; the capacity is what was asked for or half more than before, rounded down, whichever is more |
| `OutputArray.Array.Resize` | src/format.h:264-268 | Old cells survive up to the new size; the old block of memory is not written; a capacity that suffices stays, and another grows in that step |
| `OutputArray.Array.Reserve` | src/format.h:271-274 | Keeps the content and grows in that step if it must |
| `OutputArray.Array.PushBack` | src/format.h:278-282 | Appends one element, with the growth and the element moves of one step of `Growth` |
| `OutputArray.Array.Append` | src/format.h:302-308 | Appends the elements if and only if the array is empty, has room, or has room once it is half as large again; otherwise the code would write past the array and the model stops |
| `OutputArray.AppendFitsExactly` | src/format.h:292-308 | That condition is the one under which growing to max(n, 3/2 of the capacity) makes enough room |
| `OutputArray.PushesAreLinear` | src/format.h:278-299 | n pushes from empty move at most 4n elements in all and leave size n within the capacity, for every inline size above zero |
| `OutputArray.PushAll` | src/format.h:278-299 | Pushing any sequence onto a new array yields that sequence and moves at most four elements a push |
| `Layout.RenderIntExact` | src/format.h:1225-1304 | For every value, base and specification, the text has max(width, content) characters, consists of fill, sign, fill, prefix, canonical digits and fill, and reads back as the value with its sign |
| `LayoutLaws.RenderIntPrints` | src/format.h:1225-1304 | Without the functions that lay it out: for every value and specification the sign is "-", "+", a blank or nothing by value and flags; the prefix is 0 and the code, "0" or nothing; the digits are of 0-9a-f, or 0-9A-F for X alone, without leading zero, and read as the magnitude in base 10, 16, 2 or 8 by code; sign and body stand in front, behind, in the middle or apart as the alignment says, with fill elsewhere; every other code is the named error |
| `LayoutLaws.NumberLayoutStands` | src/format.cc:308-344 | Left begins with sign and body, right and default end with them, center has half of the padding rounded down in front, numeric has the sign in front and the body behind; all else is fill |
| `LayoutLaws.TextLayoutStands` | src/format.h:1202-1221 | A text wider than its width is itself; otherwise right ends with it, center has half of the padding rounded down in front, and every other alignment begins with it; all else is fill |
| `LayoutLaws.NumeralSpells` | src/format.h:1255-1259 | A numeral is spelled with the symbols 0-9 and a-f, or A-F, and its digits have the value |
| `Layout.NoPlaceholder` | src/format.cc:308-344 | No NUL survives in the text unless NUL is the fill |
| `Layout.FramedIsReady` | src/format.cc:308-344 | Cells that hold sign and fill in their places become the layout when any body of the right size is written over the rest |
| `Layout.NumberPads` | src/format.cc:312-341 | Fill before, between and after adds up to the padding |
| `Writers.Writer.GrowBuffer` | src/format.h:812-816 | Adds n cells behind the old content, which stays |
| `Writers.Writer.FillPadding` | src/format.cc:296-306 | Centres: half of the padding, rounded down, before the content, the rest behind, content cells untouched |
| `Writers.Writer.PrepareFilledBuffer` | src/format.cc:310-344 | In every alignment, whatever body is then written backwards from the returned cell completes the old content followed by the pure layout |
| `Writers.Writer.CountBaseDigits` | src/format.h:1250-1252 | The shift loop counts the digits of the numeral in its base |
| `Writers.Writer.PutDigits` | src/format.h:1257-1259 | Writes the numeral of any base backwards and touches nothing else |
| `Writers.Writer.PutPrefix` | src/format.h:1260-1263 | Writes the base prefix backwards in front of the digits |
| `Writers.Writer.SignAndMagnitude` | src/format.h:1226-1237 | Sign and absolute value of every value of every type |
| `Writers.Writer.FormatInt` | src/format.h:1225-1304 | Appends exactly the pure layout of the integer, which `LayoutLaws.RenderIntPrints` fixes, or reports an unknown type code and appends nothing |
| `Writers.Writer.FormatString` | src/format.h:1202-1221 | Appends the text aligned and filled to its width, as `LayoutLaws.TextLayoutStands` fixes it |
| `Writers.Writer.AppendLiteral` | src/format.h:302-308 | Appends literal text exactly when the array takes it |
| `FormatParsers.FormatParser.ReportError` | src/format.cc:501-512 | Throws the given error unless the rest of the template leaves a brace open, then that the brace is unmatched |
| `FormatParsers.FormatParser.ParseUInt` | src/format.cc:517-527 | Has the value, position and error of the reference reading with 32-bit wrap-around |
| `FormatParsers.FormatParser.ParseArgIndex` | src/format.cc:531-552 | Has the index use, next state, position and errors of the reference |
| `FormatParsers.FormatParser.CheckSign` | src/format.cc:555-567 | A sign needs a numeric and signed argument; which error is thrown |
| `FormatParsers.FormatParser.ParseAlign` | src/format.cc:598-630 | The two-character look-ahead for fill and alignment has the reference's result |
| `FormatParsers.FormatParser.ParseSignAndHash` | src/format.cc:632-652 | Sign and hash flags as in the reference |
| `FormatParsers.FormatParser.ParseWidth` | src/format.cc:654-668 | Zero flag and width as in the reference |
| `FormatParsers.FormatParser.ParsePrecision` | src/format.cc:670-725 | Written and nested precisions, with the brace count restored, as in the reference |
| `FormatParsers.FormatParser.ParseField` | src/format.cc:588-734 | A whole replacement field as in the reference: specification, precision, next index, position |
| `FormatParsers.FormatParser.FormatArgument` | src/format.cc:736-813 | Appends what the reference renders for the argument, which the lemmas of `FieldLaws` fix, or throws its error with nothing appended |
| `FormatParsers.FormatParser.Format` | src/format.cc:570-816 | The call stays in bounds if and only if every literal run fits the array when its turn comes, which is decided by template, arguments and the room in the writer; then the writer ends with its old content followed by the text of the two-phase reference for the template up to its first NUL, and the error is the reference's. The old content stays a prefix in every case |
| `FormatParsers.SmallTemplatesFit` | src/format.cc:578-815 | A template of at most half the capacity stays in bounds, whatever its fields add |
| `FormatParsers.LongTemplateDoesNotFit` | src/format.cc:578-590 | The boundary for a new writer: behind 400 letters and an escaped brace, 349 letters fit and 350 overrun it |
| `FormatParsers.TwoRuns` | src/format.cc:578-590 | Two runs of letters with an escaped brace between them stay in bounds if and only if each append does |
| `FormatParsers.SinglePassIsOutcome` | src/format.cc:578-815 | Parsing and formatting in one pass has the effect of parsing everything first and rendering then, errors included |
| `FormatParsers.PassIsOutcome` | src/format.cc:578-815 | The same from any position, with a literal run still to be copied |
| `TemplateGrammar.ParseUIntExact` | src/format.cc:517-527 | Numerals below 2^32 are read exactly, up to the first character that is no digit |
| `TemplateGrammar.ParseUIntWraps` | src/format.cc:521-523 | For any digits: an error if and only if some digit lowers the wrapped value, otherwise the value modulo 2^32 |
| `TemplateGrammar.ParseUIntExactly` | src/format.cc:517-527 | For any digits, the result is the value of the numeral if and only if that is below 2^32 |
| `TemplateGrammar.WrapUnnoticed` | src/format.cc:521-523 | 5000000000 is read as 705032704 without an error |
| `TemplateGrammar.IndexParses` | src/format.cc:531-552 | A printed index, or none, is read as the use it stands for |
| `TemplateGrammar.AlignParses` | src/format.cc:598-630 | Printed fill and alignment are read back |
| `TemplateGrammar.WidthParses` | src/format.cc:654-668 | Printed zero flag and width are read back; the zero flag forces numeric alignment and fill 0 |
| `TemplateGrammar.PrecisionParses` | src/format.cc:670-725 | Printed precisions, literal or nested, are read back |
| `TemplateGrammar.LayoutParses` | src/format.cc:593-668 | Everything in front of the precision is read back and nothing more is read; an empty specification gets the alignment of the character behind the brace |
| `TemplateGrammar.SpecParses` | src/format.cc:593-730 | For every legal specification, parsing its canonical text yields exactly its fields and stops behind it; an empty one gets the alignment of the character behind the brace |
| `TemplateGrammar.FieldParses` | src/format.cc:588-734 | The same for a replacement field with its index, up to its closing brace |
| `TemplateGrammar.PrintedParses` | src/format.cc:578-815 | Every legal template parses to the meaning of the syntax it was printed from |
| `TemplateGrammar.EscapedParses` | src/format.cc:580-585 | Text with doubled braces parses to its characters, in front of any template |
| `TemplateLaws.IndexDiscipline` | src/format.cc:531-552 | In every template either all fields and nested precisions name their arguments or the k-th one met takes argument k, and no index reaches past the arguments, also before an error |
| `TemplateLaws.FieldDiscipline` | src/format.cc:588-717 | One field, with its nested precision, moves the index state accordingly |
| `TemplateLaws.PrintedOutcome` | src/format.cc:570-816 | Formatting a printed template appends what its fields render to |
| `TemplateLaws.EscapeRoundTrip` | src/format.cc:577-590 | Any text with its braces doubled formats to itself up to its first NUL, where a C string ends, without error, whatever the arguments |
| `TemplateLaws.ReportIffClosed` | src/format.cc:501-512 | An error is reported as itself if and only if the rest of the template closes the open braces |
| `TemplateLaws.EmptySpecLooksAhead` | src/format.cc:599-629 | A field `{:}` gets the alignment of the character behind it; its specification is the plain one if and only if that is no alignment character |
| `TemplateLaws.BareAlignmentShowsNothing` | src/format.cc:736-804 | Built-in integer, character, string and pointer arguments print the same with such an alignment |
| `TemplateLaws.CustomSeesTheNextCharacter` | src/format.cc:805-808 | A custom argument can print differently because of it |
| `TemplateReadings.FieldDecided` | src/format.cc:588-734 | For every text that has the shape of a field, each part taking what can belong to it, leading zeros and the empty specification included: it is accepted with what it says if and only if it has no fault, that is, its index may be used, =, sign, # and a leading 0 stand for a numeric argument and a sign for a signed one, a precision for a floating-point one, and width and precision are not too big; otherwise the first fault is reported by its name, or the brace if the field is not closed |
| `TemplateReadings.FieldFound` | src/format.cc:588-734 | Conversely, a field that is accepted has that shape and no fault |
| `TemplateReadings.LayoutDecided` | src/format.cc:598-668 | Fill, alignment, sign, hash and width of such a text: accepted, or which error |
| `TemplateReadings.SignDecided` | src/format.cc:632-645 | A sign in its place is accepted if and only if the argument is numeric and not unsigned, with the named errors |
| `TemplateReadings.HashDecided` | src/format.cc:647-652 | # is accepted if and only if the argument is numeric |
| `TemplateReadings.WidthDecided` | src/format.cc:654-668 | A width is accepted if and only if it is not too big and a leading zero stands for a numeric argument |
| `TemplateReadings.PrecisionDecided` | src/format.cc:670-725 | A precision is accepted if and only if it is not too big, or names an integer argument from 0 to 2^31-1, and the argument is floating-point, with the named errors |
| `TemplateReadings.IndexDecided` | src/format.cc:531-552 | An index is accepted if and only if it does not switch the way of indexing, is not too big and names an argument |
| `Acceptance.ReadingsAreAccepted` | src/format.cc:570-816 | A template of literal characters, doubled braces and fields without fault prints what these render to |
| `Acceptance.AcceptedIsRead` | src/format.cc:570-816 | Only such templates are formatted without an error |
| `Acceptance.FaultIsReported` | src/format.cc:500-733 | The first fault is reported by its name, or as an unmatched brace if its field is not closed, with everything in front of the field already appended |
| `Acceptance.StrayBraceIsReported` | src/format.cc:578-587 | A closing brace without field is reported, and the literal characters since the last field or doubled brace are lost |
| `Acceptance.BraceFillIsReported` | src/format.cc:617-621 | An opening brace as fill character is reported |
| `Acceptance.UnreadableIsRefused` | src/format.cc:588-733 | A field without that shape is refused, whatever follows |
| `FieldLaws.CharacterPrints` | src/format.cc:762-783 | A character argument prints itself, laid out by width, fill and alignment, with no code or c; any other code is the named error |
| `FieldLaws.StringPrints` | src/format.cc:784-797 | A string prints itself likewise, with no code or s; a null pointer and any other code are the named errors |
| `FieldLaws.IntegerPrints` | src/format.cc:738-755 | An integer prints its own value to the field's own specification |
| `FieldLaws.PointerPrints` | src/format.cc:798-804 | A pointer prints as an integer in hexadecimal with its prefix, with no code or p |
| `FieldLaws.PointerLooks` | src/format.cc:798-804 | That is "0x" and the lower-case hexadecimal digits of the address, placed by width and alignment |
| `FieldLaws.PointersIgnoreFlags` | src/format.cc:801 | Flags in the specification change nothing for a pointer |
| `FieldLaws.DoublePrints` | src/format.cc:756-761 | A floating-point argument prints what its printer says for the specification and the written precision |
| `FieldLaws.DoublePrintsNested` | src/format.cc:679-717 | With a nested precision, for the integer it names, which is at most 2^31-1 |
| `FieldLaws.CustomPrints` | src/format.cc:805-808 | A custom argument prints itself for the specification and takes no code |
| `Buffers.BufferSize` | src/asio/include/asio/buffer.hpp:386-396 | The sum over a list is the length of the flattened list |
| `Buffers.Windows` | src/asio/include/asio/buffer.hpp:442-453 | The truncated buffer and the buffer offset by as much divide the bytes between them and stay inside the memory |
| `Buffers.FlattenSlice` | src/asio/include/asio/buffer.hpp:442-453 | Bytes addressed inside a buffer are the bytes of the flattened list at the cursor's position |
| `Buffers.FlattenWrote` | src/asio/include/asio/buffer.hpp:1295-1305 | A write inside one of several separate buffers overwrites that part of the flattened list and nothing else |
| `BufferCopy.CopyOne` | src/asio/include/asio/buffer.hpp:1295-1305 | Copies the smaller size and writes no other byte |
| `BufferCopy.CopyOneLimited` | src/asio/include/asio/buffer.hpp:1761-1765 | The same up to the limit |
| `BufferCopy.CopyIntoOne` | src/asio/include/asio/buffer.hpp:1403-1420 | From a list into one buffer: copies min of the totals; the target is the source prefix and its own untouched rest |
| `BufferCopy.CopyFromOne` | src/asio/include/asio/buffer.hpp:1574-1591 | From one buffer into a list: copies min of the totals, byte by byte in order; if the targets do not overlap each other, their flattened text is the source prefix and its own rest |
| `BufferCopy.CopyLists` | src/asio/include/asio/buffer.hpp:1694-1736 | Between lists with empty buffers anywhere: copies exactly min of the totals, the source's bytes written to the targets one by one in order, also when targets overlap each other; if they do not, the flattened target is the source prefix followed by its untouched rest; sources and all other memory are unchanged, and the loop ends |
| `BufferCopy.CopyListsLimited` | src/asio/include/asio/buffer.hpp:2187-2231 | The same with a limit, also when a step moves neither cursor to the next buffer because the limit is reached |
| `BufferCopy.ProgressStep` | src/asio/include/asio/buffer.hpp:1709-1732 | One memcpy between the cursors extends the copied prefix |
| `BufferCopy.ScatteredRun` | src/asio/include/asio/buffer.hpp:1715 | Writing the next bytes one by one to the positions of one target is writing one range of memory |
| `BuffersIterators.BuffersIterator.Begin` | src/asio/include/asio/buffers_iterator.hpp:127-144 | Stands at position 0, past leading empty buffers |
| `BuffersIterators.BuffersIterator.End` | src/asio/include/asio/buffers_iterator.hpp:147-163 | Stands at the total size |
| `BuffersIterators.BuffersIterator.Increment` | src/asio/include/asio/buffers_iterator.hpp:313-333 | One position further, skipping empty buffers |
| `BuffersIterators.BuffersIterator.Decrement` | src/asio/include/asio/buffers_iterator.hpp:336-363 | One position back, skipping empty buffers |
| `BuffersIterators.BuffersIterator.Advance` | src/asio/include/asio/buffers_iterator.hpp:366-445 | n positions on or back for every n that stays in range, over any mix of buffers; both loops end |
| `BuffersIterators.BuffersIterator.Plus` | src/asio/include/asio/buffers_iterator.hpp:230-236 | A copy n positions on or back; the iterator itself stays |
| `BuffersIterators.BuffersIterator.Dereference` | src/asio/include/asio/buffers_iterator.hpp:301-304 | The byte of the flattened list at the position |
| `BuffersIterators.BuffersIterator.Equal` | src/asio/include/asio/buffers_iterator.hpp:307-310 | Equal positions are equal states, and the other way round |
| `BuffersIterators.BuffersIterator.DistanceTo` | src/asio/include/asio/buffers_iterator.hpp:257-297 | Subtraction, and with it every comparison, orders iterators as their places among the buffers; distance zero is the same state |
| `BuffersIterators.BuffersIterator.StateIsPlace` | src/asio/include/asio/buffers_iterator.hpp:313-450 | The state of every iterator is a function of its position, so a long move and as many single steps end in the same state |
| `BuffersIterators.LocatedOnce` | src/asio/include/asio/buffers_iterator.hpp:313-450 | A position has one place among the buffers |
| `BuffersIterators.PlaceIsLocated` | src/asio/include/asio/buffers_iterator.hpp:313-450 | Every position up to the end has a place |
| `BuffersIterators.LocatedByte` | src/asio/include/asio/buffers_iterator.hpp:301-304 | What stands at a place is the byte of the flattened list at its position |
| `StreamBuffers.StreamBuffer.constructor` | src/asio/include/asio/basic_streambuf.hpp:131-141 | Empty, with ordered positions, an output sequence of min(maximum, 128), and an array of max(end of put area, 1) |
| `StreamBuffers.StreamBuffer.Size` | src/asio/include/asio/basic_streambuf.hpp:158-161 | The length of the content, never above the maximum |
| `StreamBuffers.StreamBuffer.Reserve` | src/asio/include/asio/basic_streambuf.hpp:299-337 | Succeeds if and only if size + n is within the maximum; then the content is unchanged, n characters can be written, and the put area ends where it did or just behind them |
| `StreamBuffers.StreamBuffer.Prepare` | src/asio/include/asio/basic_streambuf.hpp:204-209 | The same, and what a failed call leaves: the content smeared by the move |
| `StreamBuffers.SmearedIntact` | src/asio/include/asio/basic_streambuf.hpp:312-331 | A failed call leaves the content intact if and only if it repeats itself at the distance of the move |
| `StreamBuffers.LoseData` | src/asio/include/asio/basic_streambuf.hpp:312-331 | A buffer of 4 characters full of "abcd": one is consumed, preparing 2 is refused, and the content "bcd" has become "cdd" |
| `StreamBuffers.StreamBuffer.Commit` | src/asio/include/asio/basic_streambuf.hpp:223-229 | Moves at most the output sequence behind the content, and the output sequence begins behind it; the queue stays faithful |
| `StreamBuffers.StreamBuffer.Consume` | src/asio/include/asio/basic_streambuf.hpp:238-245 | Removes at most the content from the front; the queue stays faithful |
| `StreamBuffers.StreamBuffer.Underflow` | src/asio/include/asio/basic_streambuf.hpp:254-265 | Yields the first character or none and removes nothing |
| `StreamBuffers.StreamBuffer.Overflow` | src/asio/include/asio/basic_streambuf.hpp:274-297 | Appends the character if and only if the buffer is not full, growing a full put area by 128 or by the room that is left; a failure changes nothing |
| `StreamBuffers.StreamBuffer.ReadSizeHelper` | src/asio/include/asio/basic_streambuf.hpp:344-350 | A read of this size can always be prepared and is zero only if the limit is zero or the buffer full; unless cut by a limit it fills the memory there is and is at least 512 |
| `StreamBuffers.Run` | src/asio/include/asio/basic_streambuf.hpp:204-337 | Over every run of preparing, writing, committing, taking, putting and looking, with any sizes the documentation allows, the buffer does what a bounded queue with prepared room does and throws exactly when the queue is full |
| `StreamBuffers.RunOne` | src/asio/include/asio/basic_streambuf.hpp:204-337 | The same for one operation |
| `ReadUntil.PartialSearch` | src/asio/include/asio/impl/read_until.hpp:110-134 | With iterators over any list of buffers, the nested loops find the first full match in the flattened text or else the beginning of a partial match at its end |
| `ReadUntil.SearchFrom` | src/asio/include/asio/impl/read_until.hpp:569-584 | Over any list of buffers, iterators from the beginning plus the position reached find what a search of the flattened text finds, as a distance from the beginning |
| `ReadUntil.Search` | src/asio/include/asio/impl/read_until.hpp:102-134 | Everything before what is found is ruled out as a start of the delimiter |
| `ReadUntil.RuledOutForever` | src/asio/include/asio/impl/read_until.hpp:595-608 | A position ruled out stays so whatever arrives later |
| `ReadUntil.PollIsComplete` | src/asio/include/asio/impl/read_until.hpp:568-612 | Resuming the search loses nothing: the first delimiter of the whole content is found, not_found means a full buffer without one, and otherwise the next search may start where the operation says |
| `ReadUntil.NoMatchBehind` | src/asio/include/asio/impl/read_until.hpp:598-603 | Behind a partial match at the end there is no full one |
| `ReadUntil.ReadUntilOp.Look` | src/asio/include/asio/impl/read_until.hpp:569-580 | The same for the stream buffer's content as one buffer |
| `ReadUntil.ReadUntilOp.Next` | src/asio/include/asio/impl/read_until.hpp:566-619 | One turn of the loop decides as the reference does and prepares the buffer, which never fails; it asks for bytes exactly when it needs more, and for as many as `read_size_helper` says |
| `Framing.FirstLineEnds` | src/irc-client.cpp:77-79 | The first line by its definition ends with the first delimiter the search finds |
| `Framing.LinesOfPieces` | src/irc-client.cpp:48-84 | Later text completes the unfinished tail and does nothing to the lines before it |
| `Framing.LinesAndTail` | src/irc-client.cpp:72-75 | Lines and tail together are the text |
| `Framing.WireReads` | src/irc-client.cpp:193-205 | The receiver sees the messages sent if and only if none contains the line end; then nothing is left over |
| `Framing.FrameCut` | src/irc-client.cpp:197-199 | Where the first line of a framed message ends |
| `SessionRuns.RunsAreOrdered` | src/irc-client.cpp:48-119 | In every reachable state, whatever the sockets do: at most one of resolve, connect and read is pending, the connect signal comes first and once, the disconnect signal last and once, no read is pending before the one or after the other, and every search starts inside the content |
| `SessionRuns.StepSound` | src/irc-client.cpp:48-119 | Every completed operation keeps that, and what a pending read knows about the content |
| `SessionRuns.DisconnectIsFinal` | src/irc-client.cpp:58-66 | After the disconnect signal nothing can complete any more, and signals are never taken back |
| `SessionRuns.OnReadSound` | src/irc-client.cpp:58-79 | `on_read` keeps the order, whatever its arguments |
| `SessionFraming.RunFramesLines` | src/irc-client.cpp:48-84 | In every run the buffers extracted, but for empty ones, are the complete lines received, each with two NULs, except those still in the buffer; a session that waits for bytes has extracted all and keeps the unfinished tail |
| `SessionFraming.FramingIgnoresChunks` | src/irc-client.cpp:48-84 | Two runs that received the same bytes and wait for more have extracted the same lines and keep the same tail, however the bytes were split and whatever errors were survived |
| `SessionFraming.StepAccounted` | src/irc-client.cpp:48-84 | Every step accounts for the bytes it receives |
| `SessionFraming.ExtractionAccounted` | src/irc-client.cpp:55-75 | Extracting the first line moves it from the buffer to the log |
| `SessionProgress.StreamsAreDelivered` | src/irc-client.cpp:48-103 | For every way of cutting a stream into chunks no longer than what the reads ask for, and every capacity the vector may have at each, there is a run whose reads deliver exactly these chunks, in order; it has extracted exactly the complete lines, in order, and keeps the tail |
| `SessionProgress.CleanRunDelivers` | src/irc-client.cpp:48-84 | Every run without reads aborted on an open socket that ends up waiting has extracted exactly the complete lines of what it received and keeps the tail |
| `SessionProgress.MessagesArrive` | src/irc-client.cpp:48-84 | In every run that receives the messages another session wrote, in whatever reads, and then waits, the lexer has got them as they were if and only if none contains a line end; without reads aborted on an open socket there is nothing else |
| `SessionProgress.Drain` | src/irc-client.cpp:72-79 | Buffered lines are extracted one read at a time until the session waits: as many reads as lines, none of which asks for bytes |
| `SessionProgress.CleanRunsFrameLines` | src/irc-client.cpp:48-84 | Without reads aborted on an open socket nothing but complete lines is extracted |
| `SessionProgress.EmptyBuffers` | src/irc-client.cpp:61-75 | A step extracts an empty buffer if and only if a read was aborted while the socket was open; the read is then started again |
| `SessionProgress.LongLineStalls` | src/irc-client.cpp:67-70 | From a waiting session, new bytes end the reading if and only if the unfinished tail fills the buffer, and then without a signal |
| `SessionProgress.Signals` | src/irc-client.cpp:58-100 | The connect signal is given if and only if a connect succeeds, the disconnect signal if and only if a read that could still find a line ends with end of file or is aborted on a closed socket |
| `SessionProgress.GoesOn` | src/irc-client.cpp:48-119 | After every completion but a failed resolve or connect, a disconnect, another read error or a full buffer, exactly one operation is pending; after those, none |
| `SessionProgress.WaitsForThatMany` | src/asio/include/asio/impl/read_until.hpp:610 | A session that waits has asked for as many bytes as the vector has cells left, but at least 512, at most 65536, and no more than the buffer may take |
| `Sessions.Session.constructor` | src/irc-client.cpp:133-149 | A new session resolves and nothing else |
| `Sessions.Session.OnResolve` | src/irc-client.cpp:105-119 | Does the transition system's step |
| `Sessions.Session.OnConnect` | src/irc-client.cpp:86-103 | Does the transition system's step: signal, then the first read |
| `Sessions.Session.Extract` | src/irc-client.cpp:55-74 | The fresh array two cells longer holds the first bytes of the content and the NULs |
| `Sessions.Session.OnRead` | src/irc-client.cpp:48-84 | Takes the branch and leaves the content, log and pending read of the transition system |
| `Sessions.Session.AsyncReadUntil` | src/asio/include/asio/impl/read_until.hpp:697-719 | The initiating call polls once and always starts a read, of zero bytes if the delimiter is there already |
| `Sessions.Session.Complete` | src/asio/include/asio/impl/read_until.hpp:618-636 | Commits what was read, then calls the handler or looks again, as the transition system says |
| `Sessions.Session.CallHandler` | src/asio/include/asio/impl/read_until.hpp:627-635 | not_found comes before the error the socket reported |
| `Sessions.Session.Dispatch` | src/irc-client.cpp:48-119 | Running any handler on the stream buffer does the step and keeps the session sound, with all bytes put into the buffer accounted for |
| `IrcCommands.TemplateBuilds` | src/irc-client.cpp:220-247 | The three templates build the texts of PONG, PRIVMSG and QUIT, and fail exactly on a null pointer |
| `IrcCommands.CommandIsLine` | src/irc-client.cpp:220-247 | A command is one line if and only if no argument contains a line end |
| `IrcCommands.CommandsArrive` | src/irc-client.cpp:193-247 | In every run of a peer that receives commands sent one after the other, in whatever reads, and then waits, its lexer has got one buffer for each if and only if no argument contains a line end |
| `IrcCommands.Outgoing.Write` | src/irc-client.cpp:193-218 | A null or empty message sends nothing; any other is sent with its line end, behind what was sent before |
| `IrcCommands.Outgoing.Send` | src/irc-client.cpp:220-247 | A missing argument throws before anything is sent |
| `IrcCommands.Outgoing.Pong` | src/irc-client.cpp:220-226 | Sends PONG and the text |
| `IrcCommands.Outgoing.PrivMsg` | src/irc-client.cpp:228-235 | Sends PRIVMSG, the channel and the message behind a colon |
| `IrcCommands.Outgoing.Quit` | src/irc-client.cpp:237-247 | Sends QUIT, with the message behind a colon if there is one |

## Left out

- FormatParsers.FormatParser.Format: says nothing about text and error of a call that runs out of bounds; the code then writes past the array.
- FormatParsers.FormatParser.FormatArgument: a floating-point or custom argument is given by the text it prints, appended at once; what a custom formatter may do to the writer besides, such as appending and then throwing, is not captured.
- DecimalPrinters.FormatInt.Signed: excludes the least 64-bit value, for which the code's negation is undefined.
- StreamBuffers.Run: only characters that were written are committed; the unspecified ones of a larger commit are covered by the contract of `Commit` alone.
- SessionFraming.FramingIgnoresChunks: speaks of runs that end waiting for bytes; a run that ended otherwise is covered by `RunFramesLines`.
- `FormatDouble`, NaN and infinity rest on the C library: a floating-point argument carries the function that prints it.
- Floating-point and custom arguments grow the array once, to the size they need.
- Overflow of the signed argument counter `next_arg_index_`, and of `int` and `unsigned` sizes, widths and offsets above their range, in `pbump`, `gbump`, `buf_size` and elsewhere.
- `long` has 64 bits, as in the LP64 data model.
- Wide characters, checked iterators, sinks, `Print`, colour and system-error output, Windows conversions.
- Lifetimes of `BasicFormatter`, `BasicArg` and moved arrays; deallocation, and the mismatched `delete` in `cq_irc_session_write_sync`.
- Memory for buffer copies is one array; the copy in `on_read`, from the stream buffer's array to a fresh one, is modelled in `Sessions.Session.Extract` and not by a call of `BufferCopy`.
- How far a vector's capacity grows is left open: every completed operation finds some capacity that holds the content, on which only the number of bytes asked for depends.
- Character, regular-expression and match-condition forms of reading until something.
- Sockets, resolvers, timers and their services: what they may do is the predicate `Possible`. That shutdown and close lead to an aborted or ended read is theirs, so `cq_irc_session_disconnect` appears only through what `is_open` says when a handler runs.
- Completed operations are handled one at a time; concurrent writes, the output strand and the jobs posted to the service are not modelled. Extraction order is the order of the log.
- The lexer behind `thread_parse`, which gets the extracted buffers.
- Destroying a session while operations are pending.
