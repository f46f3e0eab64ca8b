# Verified cores of a C/C++ collection

The repository is a collection of small C and C++ programs. This project models the seven components whose
correctness does not show from reading one function, and proves in Dafny 4.11 what each of them is for.
`dafny verify dfyconfig.toml` checks everything.

| component | files | main results |
|---|---|---|
| cJSON | `CJsonLiterals`, `CJsonTree`, `CJsonGrammar`, `CJsonSyntax`, `CJsonTokens`, `CJsonAcceptance`, `CJsonConverse`, `CJsonRoundTrip`, `CJsonUnicode`, `CJsonParser`, `CJsonPrinter`, `CJsonPretty`, `CJsonCompare` | A text is accepted if and only if it belongs to a grammar that goes beyond RFC 8259 in stated ways, has no number above 63 bytes and no unpaired surrogate, and nests at most 1000 containers; the parse then gives the value it stands for (`TextParses`, `AcceptedExactly`, and `StrictTextParses` for the texts of RFC 8259). Printed texts are among them, so printing then parsing gives the tree back (`PrintThenParse`); they are texts of RFC 8259 (`PrintedIsStrict`), laid out as `TextIsPicture` draws them, and formatting adds blanks only (`FormattingAddsBlanksOnly`). The imperative parser computes the grammar on every C string, the position of a failure included, with every read and write in range (`ParseWithOpts`, `ReadString`). The imperative printer leaves exactly the specified text and succeeds exactly when two bytes more than the text fit (`PrintValue`, `PrintPreallocated`). `cJSON_Compare` is characterised on all trees (`CompareDecides`, `CompareIgnoresOrderOnly`). |
| thread pool | `ThreadPool`, `ThreadPoolSafety`, `ThreadPoolJobs`, `ThreadPoolLiveness` | Over every interleaving: the jobs accepted are those that the calls passed, they are handed out in that order, and each has been run exactly once when the pool shuts down (`ReachableSafe`, `JobsAreRunInOrder`, `EveryJobIsRun`); for every configuration, no lost wake-up and no deadlock exactly under stated conditions on the numbers of workers, producers and slots (`NoLostWakeupExactly`, `NoDeadlockExactly`); every call returns within a bound (`EveryCallReturns`). |
| barrier | `Barrier` | In every run with spurious wake-ups nobody passes before its generation is complete, and exactly one call per generation returns true (`BarrierHolds`); it does open (`BarrierOpens`); every released call returns within a bound (`EveryReleasedCallReturns`). |
| timers | `TimerWheel`, `TimerHeap`, `TimerList`, `TimerAgreement`, `TimerRuns` | The wheel, with the links of its slots, refines countdowns: over any run of operations a timer whose timeout is worth k ticks fires in the (k+1)-th tick after its insertion and in no other (`TimerWheel.Run`). The heap and the pointer-linked sorted list keep their invariants; over any run of adds, deletions and ticks both call exactly the waiting timers that are due, earliest first, although the heap deletes lazily and the list at once (`TimerRuns.RunBoth`). |
| serial link | `SerialLink`, `Crc16`, `CrcDivision` | However reads split the stream, encoded frames come out with their payload, unchanged and in order, pass both checks and are accepted (`Link`). The table-driven CRC is polynomial long division (`BlockCrcByTable`, `CrcIsRemainder`) and sees every burst of up to sixteen bits, complemented or not (`BurstIsSeen`). |
| Internet checksum | `InternetChecksum` | No overflow and two folds for every buffer up to 65535 bytes (`Chksum`); a stored checksum verifies (`StoredChecksumVerifies`); the machine-word form is the byte swap of the other (`ComputeCksum`). |
| memory pool | `MemoryPool` | The free lists are threaded through the blocks themselves. Over any run, whatever users write to the blocks they hold, live blocks never coincide, blocks go home, nothing is lost (`MemoryPool.Run`, `New`, `Delete`, `Write`, `Conserved`); a request is served exactly when the largest class holds it, and all are exactly when the maximum is at least 1024 or a class size (`IndexInRangeFor`, `ServesAllExactly`). |

`Collections` holds what several components share.

`CJsonLiterals` spells out what escapes, hexadecimal and decimal digits mean, apart from the parser that reads them.

How the pieces fit: a specification function (`ParseValue`, `Text`, `BlockCrc`, `FeedAll`, `Counts`, ...) says
what an operation means; the method that works step by step is proved to compute it; the laws are lemmas about
the function. The two concurrent components are step systems: `Enabled` and `Apply` give what one thread does
between two scheduling points, and the claims quantify over every run.

Assumptions:

- cJSON numbers that are printed are integers of magnitude below 10^15, for which `%1.15g` writes plain decimal
  digits; strings and keys are NUL-free C strings; memory allocation succeeds. `strtod` is modelled by its exact
  decimal value, as a `real`. Whitespace is any byte from 1 to 32, as the parser has it.
- The thread pool has one destroyer; condition variables may wake up spuriously; a failing `malloc` in
  `threadpool_add_job` is a step of its own.
- Each serial `read` after `select` returns between one byte and the number asked for.
- Callbacks do not re-enter a timer container; the clock is a parameter. A timer's deadline is a number.
- The barrier's generation counter does not wrap.
- `unsigned long` has 64 bits and `unsigned int` 32, where the CRC table is built.

Where code and documentation disagree the model follows the code:

- `cJSON.h` advises five bytes more than the text for `cJSON_PrintPreallocated`; two are needed and two suffice
  (`PrintPreallocated`).
- The pool accepts `queue_max_num` 1, but a worker that empties such a queue wakes only the destroyer, so a
  sleeping producer may never be woken (`LostWakeupWithOneSlot`, `Stuck`).
- `cJSON_Duplicate` copies a string up to its first NUL, so that a tree holding an escaped NUL is not duplicated
  exactly: `EscapedNulIsLost` is an instance, `DuplicateIsSame` the exact condition. The comparer does not see the
  difference.
- Not every text of RFC 8259 is accepted: a number of more than 63 bytes is left in the middle, and an unpaired
  surrogate such as `"\uDEAD"`, which section 8.2 admits, is refused (`LoneSurrogateTextIsRefused`). Nor is every
  accepted text one: any byte from 1 to 32 is whitespace, control characters may stand in a string, numbers such as
  `1.`, `-.5` and `007` are read, and a `\u` with a byte that is no hexadecimal digit is U+0000, so that `"\uZZZZ"` is
  accepted (`ZeroUnitIsAccepted`). `AcceptedExactly` says which texts are.
- `cJSON_Compare` is not reflexive: an object with a repeated key and two values differs from its own duplicate
  (`RepeatedKeyBreaksReflexivity`). `CompareIsPartialEquivalence` gives the exact condition.
- `CMemoryPool` accepts any maximum below 1024, but one that is no class size lets `New` index past the last
  chunk (`IndexOutOfRange`). `New` returns null where the source does that, exactly under `Served`.
- `EncodeBigBuffer` accepts any size, but above 65539 bytes the 16-bit length no longer describes the frame.
- The refusal that `ProcessRecvBuffer` sends for a wrong CRC carries the checksum of an acceptance
  (`ReplyToBigBuffer`).
- A timer heap constructed with capacity 0 stays at capacity 0, since `resize` doubles: `AddTimer` and `Tick` return
  false where the source would leave its array, and `AddAll` shows that such a heap never takes a timer.
- `add_timer` of the sorted list leaves some links of the timer as they are, so that a timer with stale links breaks
  the list; `AddTimer` gives the exact condition.
- A `read` that returns nothing while the body of a frame is awaited delivers the frame as if it were complete
  (`Receiver.OnNothing`).

## Model

| member | source | states |
|---|---|---|
| `CJsonRoundTrip.PrintThenParse` | file_format/json/cJSON/cJSON.c:708-1727 | the text of a tree, formatted or not, parses back to that very tree and up to its terminator if the tree nests at most 1000 containers, and is refused otherwise; member order and duplicate keys included |
| `CJsonAcceptance.TextParses` | file_format/json/cJSON/cJSON.c:1010-1087 | for every text of the grammar, any escapes, number lengths, whitespace and byte order mark: accepted, terminator required, if and only if its numbers have at most 63 bytes each, no unit is an unpaired surrogate and it nests at most 1000 containers; the value is then the one it stands for, and without the terminator check the parse ends behind it |
| `CJsonAcceptance.StrictTextParses` | file_format/json/cJSON/cJSON.c:1010-1087 | the same if and only if for the texts of section 2 of RFC 8259, which are all texts of the grammar |
| `CJsonAcceptance.LoneSurrogateTextIsRefused` | file_format/json/cJSON/cJSON.c:606-631 | `"\uDEAD"`, a text of RFC 8259, is refused with and without the terminator check |
| `CJsonAcceptance.ZeroUnitIsAccepted` | file_format/json/cJSON/cJSON.c:550-583 | `"\u0000"`, and `"\uZZZZ"` with any four bytes that have the value 0, are accepted as a string of one NUL |
| `CJsonConverse.AcceptedExactly` | file_format/json/cJSON/cJSON.c:1010-1087 | a NUL-free text is accepted, terminator required, if and only if it is the text of an acceptable value with whitespace and perhaps a byte order mark around it, and the parse then gives that value and ends at the end of the text |
| `CJsonConverse.ValueIsText` | file_format/json/cJSON/cJSON.c:1222-1274 | wherever and at whatever depth the parser accepts a value, what it consumed is the text of a well-formed value, and what it returned is what that text stands for |
| `CJsonConverse.ItemsAreText` | file_format/json/cJSON/cJSON.c:1386-1423 | the same for the element loop |
| `CJsonConverse.MembersAreText` | file_format/json/cJSON/cJSON.c:1540-1595 | the same for the member loop |
| `CJsonConverse.StringIsText` | file_format/json/cJSON/cJSON.c:708-834 | an accepted string is the text of characters with paired surrogates, and has their bytes |
| `CJsonConverse.NumberIsText` | file_format/json/cJSON/cJSON.c:276-350 | an accepted number is the text of a numeral of at most 63 bytes, and has its value |
| `CJsonAcceptance.ValueParses` | file_format/json/cJSON/cJSON.c:1222-1274 | the same for a value in the middle of any buffer and at any depth: it parses as it should, or fails, or stops in front of a further byte of an overlong number |
| `CJsonAcceptance.ArrayParses` | file_format/json/cJSON/cJSON.c:1351-1442 | an array with any whitespace parses to its elements if and only if all of them can be read and it does not nest too deeply |
| `CJsonAcceptance.ElementsParse` | file_format/json/cJSON/cJSON.c:1386-1423 | the element loop reads any elements with any whitespace around them, commas and closing bracket included |
| `CJsonAcceptance.ObjectParses` | file_format/json/cJSON/cJSON.c:1507-1613 | an object with any whitespace parses to its members, in order, duplicates kept, if and only if all of them can be read and it does not nest too deeply |
| `CJsonAcceptance.EntriesParse` | file_format/json/cJSON/cJSON.c:1540-1595 | the member loop reads any members with any whitespace in their four places |
| `CJsonAcceptance.EntryParses` | file_format/json/cJSON/cJSON.c:1563-1588 | key, colon and value with any whitespace between them are one member |
| `CJsonTokens.StringParses` | file_format/json/cJSON/cJSON.c:708-834 | a string in any mixture of plain bytes, short escapes and `\uXXXX` units parses to the bytes it stands for if and only if its surrogates are paired |
| `CJsonTokens.UnshortMeans` | file_format/json/cJSON/cJSON.c:769-796 | each letter behind a backslash is read as one of the eight pairs of section 7 of RFC 8259 says, and no other letter is |
| `CJsonTokens.LaxUnitCode` | file_format/json/cJSON/cJSON.c:550-583 | a `\u` is read as the number its four digits write, or as 0 if one of them is none |
| `CJsonTokens.Punctuation` | file_format/json/cJSON/cJSON.c:1222-1274 | quote, backslash, comma, colon, layout bytes and keywords are the ASCII ones, and the nesting limit is 1000 |
| `CJsonUnicode.HexMeans` | file_format/json/cJSON/cJSON.c:556-567 | a hexadecimal digit of either case has its value, and no other byte has one |
| `CJsonUnicode.Hex4Means` | file_format/json/cJSON/cJSON.c:550-583 | four digits are worth the sum of their places |
| `CJsonTokens.CharsUnescape` | file_format/json/cJSON/cJSON.c:754-812 | the second pass takes such a string character by character, and fails exactly on an unpaired surrogate |
| `CJsonTokens.TokensEnd` | file_format/json/cJSON/cJSON.c:721-743 | the first pass, which goes from backslash pair to backslash pair, stops at the closing quote |
| `CJsonTokens.StrictCharsOk` | file_format/json/cJSON/cJSON.c:721-812 | the strings of section 7 of RFC 8259 read alike in both passes |
| `CJsonTokens.NumberParses` | file_format/json/cJSON/cJSON.c:276-350 | a number of any length with optional sign, fraction and exponent parses to its exact decimal value if it has at most 63 bytes, and is otherwise left in front of a byte that no value may be followed by |
| `CJsonTokens.NumeralComputed` | file_format/json/cJSON/cJSON.c:276-350 | reading all digits as one integer and scaling it gives what the digits are worth place by place, in front of the point, behind it and in the exponent |
| `CJsonRoundTrip.RenderIsText` | file_format/json/cJSON/cJSON.c:1277-1348 | what the printer is to write is one of the texts of the value |
| `CJsonRoundTrip.DocStandsFor` | file_format/json/cJSON/cJSON.c:1277-1348 | and it is a text that stands for exactly that value |
| `CJsonRoundTrip.PrintedIsStrict` | file_format/json/cJSON/cJSON.c:1277-1348 | whatever is printed is a text of section 2 of RFC 8259: its whitespace, no leading zero, every escape one of section 7 |
| `CJsonPretty.TextIsPicture` | file_format/json/cJSON/cJSON.c:1277-1727 | the text written from the left is the picture of the tree: arrays on one line with `, ` or `,` between elements, one line per member one tab deeper than the braces, a tab behind the colon, or none of that when not formatting; strings escaped by the seven short escapes and lower-case `\u00xx` |
| `CJsonPretty.FormattingAddsBlanksOnly` | file_format/json/cJSON/cJSON.c:1445-1727 | without its blanks outside strings the formatted text is the unformatted one, which has no such blanks |
| `CJsonRoundTrip.ValueRoundTrip` | file_format/json/cJSON/cJSON.c:1222-1348 | the same for a value in the middle of any buffer, at any depth and indentation |
| `CJsonRoundTrip.StringRoundTrip` | file_format/json/cJSON/cJSON.c:708-956 | a quoted and escaped string parses back to the same bytes, ending behind its closing quote |
| `CJsonRoundTrip.NumberRoundTrip` | file_format/json/cJSON/cJSON.c:276-350 | the digits of an integer below 10^15 in magnitude parse back to it, ending at the first byte that belongs to no number |
| `CJsonTree.PlainIntegersAre` | file_format/json/cJSON/cJSON.c:484-519 | the numbers the printer model takes are all integers below 10^15 in magnitude |
| `CJsonTree.UpToNulIsPrefix` | file_format/json/cJSON/cJSON.c:1782-1812 | what C string functions see of a key or string is all of it up to its first NUL |
| `CJsonRoundTrip.TextNulFree` | file_format/json/cJSON/cJSON.c:471-481 | no printed text contains a NUL, so `strlen` in `update_offset` finds its end |
| `CJsonRoundTrip.PrintIsInjective` | file_format/json/cJSON/cJSON.c:1277-1348 | different trees print differently, however deeply they nest |
| `CJsonRoundTrip.ParsedValueIsShallow` | file_format/json/cJSON/cJSON.c:1356-1360 | whatever the parser accepts nests no deeper than the limit |
| `CJsonRoundTrip.ParseThenPrintThenParse` | file_format/json/cJSON/cJSON.c:1010-1219 | an accepted text whose tree has only integers below 10^15 and NUL-free strings, printed again either way, is accepted again as the same tree |
| `CJsonCompare.AcceptedPrintsAgain` | file_format/json/cJSON/cJSON.c:1010-1219 | an accepted text whose tree has only integers below 10^15, escaped NULs allowed, prints either way to a text that is accepted as the tree cut at its NULs |
| `CJsonGrammar.SkipWhitespace` | file_format/json/cJSON/cJSON.c:973-991 | the result is in range, not before the start unless the start was past the end, and at a byte above 32 or at the last byte |
| `CJsonGrammar.ParseValue` | file_format/json/cJSON/cJSON.c:1222-1274 | on success the position has strictly advanced and does not pass the terminator |
| `CJsonGrammar.ParseItems` | file_format/json/cJSON/cJSON.c:1386-1423 | the same for the element loop, which never returns no element |
| `CJsonGrammar.ParseMembers` | file_format/json/cJSON/cJSON.c:1540-1595 | the same for the member loop |
| `CJsonGrammar.ParseText` | file_format/json/cJSON/cJSON.c:1010-1087 | the end of an accepted parse is inside the text or at its terminator |
| `CJsonUnicode.DecodeEncode` | file_format/json/cJSON/cJSON.c:650-697 | an independent strict decoder (no overlong form, no surrogate, section 3 of RFC 3629) turns the encodings of any sequence of scalar values back into the sequence |
| `CJsonUnicode.Utf8IsWellFormed` | file_format/json/cJSON/cJSON.c:650-697 | each encoding has the length its lead byte announces, continuation bytes behind it, the value as payload, and is the shortest |
| `CJsonUnicode.EscapedTextParses` | file_format/json/cJSON/cJSON.c:587-812 | any sequence of scalar values written as `\uXXXX` or surrogate pairs, digits of either case, parses to its UTF-8 encoding, which decodes back to the sequence |
| `CJsonUnicode.UnpairedSurrogateIsRejected` | file_format/json/cJSON/cJSON.c:587-643 | a string with an unpaired surrogate at any position the second pass gets to is rejected, whatever stands in front of it; the surrogates that convert are exactly the paired ones |
| `CJsonUnicode.StringRejectedExactly` | file_format/json/cJSON/cJSON.c:708-834 | a string with a closing quote is rejected if and only if the second pass comes to an unknown letter, a `\u` cut short or an unpaired surrogate |
| `CJsonUnicode.PlainTextIsPassed` | file_format/json/cJSON/cJSON.c:758-761 | text without a backslash is passed over, so that what stands behind it is reached |
| `CJsonUnicode.PairValue` | file_format/json/cJSON/cJSON.c:641-642 | splitting a supplementary code point into surrogates and combining them gives it back (section 2.2 of RFC 2781) |
| `CJsonParser.TurnFits` | file_format/json/cJSON/cJSON.c:721-809 | one turn of the second pass writes no more than the first pass reserved for the bytes it consumed, even where a malformed `\u` makes the passes disagree on where escapes begin |
| `CJsonParser.ParseHex4` | file_format/json/cJSON/cJSON.c:550-583 | the value of four hexadecimal digits, 0 if one is not a digit |
| `CJsonParser.Utf16LiteralToUtf8` | file_format/json/cJSON/cJSON.c:587-705 | converts exactly the literals the grammar accepts, writes their UTF-8 form at the given place and leaves what is in front alone |
| `CJsonParser.WriteUtf8` | file_format/json/cJSON/cJSON.c:650-699 | the loop from the last byte to the first writes the encoding of section 3 of RFC 3629 |
| `CJsonParser.ParseBuffer.SkipBlanks` | file_format/json/cJSON/cJSON.c:973-991 | the cursor moves to the next byte above 32 or steps back onto the terminator |
| `CJsonParser.ParseBuffer.CopyToken` | file_format/json/cJSON/cJSON.c:292-322 | the token handed to `strtod` is the longest run of number bytes, at most 63 |
| `CJsonParser.ParseBuffer.ReadNumber` | file_format/json/cJSON/cJSON.c:276-350 | succeeds, and moves, exactly as the grammar says |
| `CJsonParser.ParseBuffer.FindStringEnd` | file_format/json/cJSON/cJSON.c:721-743 | finds the closing quote if there is one and counts the escapes in front of it |
| `CJsonParser.ParseBuffer.FillString` | file_format/json/cJSON/cJSON.c:754-812 | fills a buffer of the size the first pass computed, every write in range and room left for the terminator, with the bytes the string stands for |
| `CJsonParser.ParseBuffer.ReadString` | file_format/json/cJSON/cJSON.c:708-834 | on every buffer, both passes together parse a string as the grammar says |
| `CJsonParser.ParseBuffer.ReadValue` | file_format/json/cJSON/cJSON.c:1222-1274 | terminates on every C string with every read in range, and returns the item, the position and the verdict of the grammar |
| `CJsonParser.ParseBuffer.ReadArray` | file_format/json/cJSON/cJSON.c:1351-1442 | the same for arrays, the depth restored on success |
| `CJsonParser.ParseBuffer.ReadItems` | file_format/json/cJSON/cJSON.c:1386-1423 | the loop that steps back in front of the first element collects exactly the elements of the grammar |
| `CJsonParser.ParseBuffer.ReadObject` | file_format/json/cJSON/cJSON.c:1507-1613 | the same for objects |
| `CJsonParser.ParseBuffer.ReadMember` | file_format/json/cJSON/cJSON.c:1563-1588 | key, colon, value as in the grammar |
| `CJsonParser.ParseBuffer.ReadMembers` | file_format/json/cJSON/cJSON.c:1540-1595 | the member loop collects exactly the members of the grammar, in order, duplicates kept |
| `CJsonParser.ParseWithOpts` | file_format/json/cJSON/cJSON.c:1010-1087 | with byte order mark, blanks and optional terminator check: the item and the end of the parse, or the very position where it failed |
| `CJsonPrinter.PrintBuffer.Ensure` | file_format/json/cJSON/cJSON.c:383-468 | succeeds exactly when the request and one byte more stay within the limit; what was written survives the reallocation |
| `CJsonPrinter.PrintBuffer.UpdateOffset` | file_format/json/cJSON/cJSON.c:471-481 | moves the offset to the end of the text just written |
| `CJsonPrinter.PrintBuffer.PrintNumber` | file_format/json/cJSON/cJSON.c:484-547 | appends the decimal digits and a terminator, and alone among the leaves advances the offset |
| `CJsonPrinter.PrintBuffer.CountEscapes` | file_format/json/cJSON/cJSON.c:864-888 | the number of bytes that escaping adds |
| `CJsonPrinter.PrintBuffer.PrintString` | file_format/json/cJSON/cJSON.c:837-956 | leaves the quoted, escaped string and its terminator behind the offset, in exactly the reserved size |
| `CJsonPrinter.PrintBuffer.CopyEscaped` | file_format/json/cJSON/cJSON.c:907-950 | the escaping loop writes the escape of the whole string, each stray terminator overwritten |
| `CJsonPrinter.PrintBuffer.PrintValue` | file_format/json/cJSON/cJSON.c:1277-1348 | succeeds exactly when everything written plus the text plus two bytes fit the limit; then the buffer holds what was there and the text, NUL-terminated, and the depth is unchanged |
| `CJsonPrinter.PrintBuffer.PrintAndAdvance` | file_format/json/cJSON/cJSON.c:1470-1474 | after `update_offset` the written part is what was there followed by the text |
| `CJsonPrinter.PrintBuffer.PrintArray` | file_format/json/cJSON/cJSON.c:1445-1504 | the same as for a value, for arrays |
| `CJsonPrinter.PrintBuffer.PrintItems` | file_format/json/cJSON/cJSON.c:1468-1503 | the element loop and closing bracket write the rest of the array |
| `CJsonPrinter.PrintBuffer.PrintObject` | file_format/json/cJSON/cJSON.c:1616-1727 | the same as for a value, for objects |
| `CJsonPrinter.PrintBuffer.PrintMembers` | file_format/json/cJSON/cJSON.c:1643-1726 | the member loop and closing brace write the rest of the object |
| `CJsonPrinter.PrintBuffer.PrintMember` | file_format/json/cJSON/cJSON.c:1645-1706 | indentation, key, colon, value, comma and line break of one member |
| `CJsonPrinter.PrintBuffer.PrintClosing` | file_format/json/cJSON/cJSON.c:1709-1726 | the closing brace on its own line, one tab less than the members |
| `CJsonPrinter.Print` | file_format/json/cJSON/cJSON.c:1097-1170 | returns the text, unless it is too long for `INT_MAX` |
| `CJsonPrinter.PrintBuffered` | file_format/json/cJSON/cJSON.c:1172-1200 | returns the same text whatever the caller's guess of the size |
| `CJsonPrinter.PrintPreallocated` | file_format/json/cJSON/cJSON.c:1202-1219 | succeeds exactly when the buffer has two bytes more than the text, which it then holds, terminated |
| `CJsonCompare.FoldMeans` | file_format/json/cJSON/cJSON.c:104-124 | keys fold alike exactly if their C strings have equal bytes or, when case does not matter, letters that differ in case only |
| `CJsonCompare.FindMeans` | file_format/json/cJSON/cJSON.c:1782-1812 | the look-up ends at the first member whose key is the same in that sense, and none before it is |
| `CJsonCompare.CompareDecides` | file_format/json/cJSON/cJSON.c:2838-2961 | on all trees and under both case rules, strings compared up to their first NUL: accepted exactly when duplicate keys agree inside each tree and the trees are the same once objects become maps |
| `CJsonCompare.CompareIsPartialEquivalence` | file_format/json/cJSON/cJSON.c:2838-2961 | symmetric and transitive on all trees, reflexive exactly where duplicate keys agree |
| `CJsonCompare.CompareReordered` | file_format/json/cJSON/cJSON.c:2920-2956 | without repeated keys, the two look-up loops accept exactly the objects whose members pair off one to one by key and value |
| `CJsonCompare.CompareIgnoresOrderOnly` | file_format/json/cJSON/cJSON.c:2838-2961 | without repeated keys, comparing is equality up to member order, as a pairing and as equal maps |
| `CJsonCompare.DuplicateIsSame` | file_format/json/cJSON/cJSON.c:2564-2641 | a recursive duplicate is the same tree if and only if no string or key holds a NUL; one that does not recurse, if and only if there are no children either |
| `CJsonCompare.EscapedNulIsLost` | file_format/json/cJSON/cJSON.c:2564-2641 | the text `"\u0000"` parses to a string that differs from its duplicate |
| `CJsonCompare.DuplicateLooksSame` | file_format/json/cJSON/cJSON.c:2564-2641 | to the comparer a recursive duplicate is like its original in every case |
| `CJsonCompare.DuplicateCompares` | file_format/json/cJSON/cJSON.c:2564-2641 | it compares equal to its original exactly when duplicate keys agree, so always when keys are distinct |
| `CJsonCompare.RepeatedKeyBreaksReflexivity` | file_format/json/cJSON/cJSON.c:2920-2956 | an object with one key twice and different values does not compare equal to its duplicate |
| `ThreadPoolSafety.SafeStep` | thread/c/simple_threadpool.c:65-185 | every step of every thread keeps mutual exclusion, the count, FIFO tickets, the stages of closing and exactly-once |
| `ThreadPoolSafety.WakeupStep` | thread/c/simple_threadpool.c:70-74 | unless there is one slot with workers and producers, each step keeps: a sleeping producer means a full queue, a sleeping worker an empty one (and no close, or the broadcast still to come), a sleeping destroyer a non-empty one |
| `ThreadPoolSafety.RunKeepsSafe` | thread/c/simple_threadpool.c:65-185 | both invariants over whole runs |
| `ThreadPoolSafety.ReachableSafe` | thread/c/simple_threadpool.c:65-185 | both hold in every reachable state |
| `ThreadPoolSafety.DrainedOnShutdown` | thread/c/simple_threadpool.c:147-185 | when the clean-up starts the queue is empty, all workers have exited and the completed jobs are exactly the accepted ones, each once |
| `ThreadPoolJobs.JobsAreRunInOrder` | thread/c/simple_threadpool.c:65-139 | over every run, read off its steps alone: the accepted jobs are, in order, what each producer passed in its latest call before an insertion that has memory and comes before any closing; the workers have been handed a beginning of them in that order |
| `ThreadPoolJobs.EveryJobIsRun` | thread/c/simple_threadpool.c:147-185 | when the workers are joined the jobs run are exactly those, each as often as it was passed |
| `ThreadPoolJobs.OfferedGrows` | thread/c/simple_threadpool.c:81-101 | the jobs accepted in a beginning of a run are a beginning of those accepted in the run |
| `ThreadPoolJobs.ShutdownIsReached` | thread/c/simple_threadpool.c:65-185 | any list of jobs can be accepted, run and shut down after, by any pool with a producer, a worker and a slot, or without jobs by any pool |
| `ThreadPoolJobs.RunsLeaveNothingOut` | thread/c/simple_threadpool.c:65-145 | at any moment an idle producer may call with any job, memory may be there or not, any sleeper may wake up for no reason, and whoever wants a free mutex may get it |
| `ThreadPoolSafety.NoDeadlock` | thread/c/simple_threadpool.c:65-185 | with a worker and two slots, or nobody to add jobs, a pending call always leaves some thread able to move by itself |
| `ThreadPoolSafety.LostWakeupWithOneSlot` | thread/c/simple_threadpool.c:131-139 | with one slot a producer can sleep on an empty queue |
| `ThreadPoolSafety.NoLostWakeupExactly` | thread/c/simple_threadpool.c:131-139 | for every configuration: no reachable state loses a wake-up if and only if the bound is not 1 or there is no worker or no producer |
| `ThreadPoolSafety.Stuck` | thread/c/simple_threadpool.c:65-145 | without a worker or with fewer than two slots, for any numbers of threads, a pending call can be stuck for good |
| `ThreadPoolSafety.NoDeadlockExactly` | thread/c/simple_threadpool.c:65-185 | for every configuration: freedom from deadlock if and only if nobody adds jobs or there is a worker and the bound is at least 2 |
| `ThreadPoolLiveness.FuelDescends` | thread/c/simple_threadpool.c:65-185 | every step a thread takes by itself lowers a measure |
| `ThreadPoolLiveness.OwnRunsAreBounded` | thread/c/simple_threadpool.c:65-185 | threads left to themselves stop within the measure of the state they started in |
| `ThreadPoolLiveness.EveryCallReturns` | thread/c/simple_threadpool.c:65-185 | when they stop, under any schedule, every call has returned |
| `Barrier.SafeStep` | thread/c++/barrier/barrier.h:18-35 | every step keeps the invariant of current and finished generations |
| `Barrier.RunKeepsSafe` | thread/c++/barrier/barrier.h:18-35 | so does every run |
| `Barrier.BarrierHolds` | thread/c++/barrier/barrier.h:11-35 | for a barrier made for `count` calls: no call returns before `count` calls of its generation arrived, exactly one per generation returns true and count - 1 return false or are on their way out, and the current waiters number count - m_count |
| `Barrier.BarrierOpens` | thread/c++/barrier/barrier.h:18-35 | with enough threads `count` calls can arrive and all return: one true, the others false |
| `Barrier.RunsLeaveNothingOut` | thread/c++/barrier/barrier.h:18-35 | any idle thread may call, any sleeper may wake up for no reason, and whoever wants a free mutex may get it |
| `Barrier.WaitersGetOut` | thread/c++/barrier/barrier.h:31-34 | a generation is over exactly when `count` calls of it have arrived; its waiters are then never asleep: each, or the holder of the mutex, can move |
| `Barrier.FuelDescends` | thread/c++/barrier/barrier.h:18-35 | every step a thread takes by itself lowers a measure |
| `Barrier.EveryReleasedCallReturns` | thread/c++/barrier/barrier.h:18-35 | from any state of any run, threads left to themselves stop within a bound, and then every call of a finished generation has returned: one true, count - 1 false |
| `Countdown.FiresOnceOnTime` | timer/c++/timing_wheel.h:164-211 | for countdowns: over any events that leave it alone, a timer at k fires in the (k+1)-th tick if there is one and in no other |
| `Countdown.NeverFiresWhenAbsent` | timer/c++/timing_wheel.h:136-211 | for countdowns: a timer that is not there and is not added does not fire |
| `TimerWheel.Run` | timer/c++/timing_wheel.h:92-211 | any sequence of add, delete and tick on a new wheel: what fires, tick by tick, is the log of the countdowns, and a timer whose timeout is worth k ticks and that is not deleted fires in the (k+1)-th tick after its insertion and in no other |
| `TimerWheel.WorthIsTimeout` | timer/c++/timing_wheel.h:98-110 | with the interval of one, a timeout is worth itself, and one if it is 0 |
| `TimerWheel.Perform` | timer/c++/timing_wheel.h:92-211 | one operation on the wheel does to its countdowns what the event does to the model |
| `TimerWheel.RemainingIsModular` | timer/c++/timing_wheel.h:111-114 | the countdown read off slot and rotation is ((time_slot - cur_slot) mod N) + N * rotation |
| `TimerWheel.PlacedAt` | timer/c++/timing_wheel.h:111-116 | slot and rotation chosen for a number of ticks stand for that number |
| `TimerWheel.TurnOnce` | timer/c++/timing_wheel.h:171-210 | turning the wheel by one lowers every countdown by one, and 0 is exactly the current slot with no rotation left |
| `TimerWheel.TimeWheel.constructor` | timer/c++/timing_wheel.h:63-70 | no timers |
| `TimerWheel.TimeWheel.AddTimer` | timer/c++/timing_wheel.h:92-130 | links a new timer in front of its slot: one countdown more, of one tick below TI and else of the whole intervals in the timeout, and no other changed; a negative timeout adds nothing |
| `TimerWheel.TimeWheel.DelTimer` | timer/c++/timing_wheel.h:136-162 | unlinks the timer through its own links, without a search: that countdown is gone and no other changed |
| `TimerWheel.TimeWheel.Unlink` | timer/c++/timing_wheel.h:142-161 | head, next and prev of every slot are right again after the removal of one node |
| `TimerWheel.LinkInFront` | timer/c++/timing_wheel.h:117-128 | the pointer writes of an insertion keep every link of the longer list |
| `TimerWheel.Bypass` | timer/c++/timing_wheel.h:153-160 | the pointer writes of a removal keep every link of the shorter list |
| `TimerWheel.TimeWheel.Tick` | timer/c++/timing_wheel.h:167-211 | fires exactly the timers at 0, each once, and lowers all others by one |
| `TimerWheel.TimeWheel.Sweep` | timer/c++/timing_wheel.h:169-207 | the walk reaches every node of the slot although it unlinks some on its way: the list keeps exactly those with rotations left, lowered by one, and the others have fired, in list order |
| `TimerWheel.TimeWheel.Visit` | timer/c++/timing_wheel.h:176-206 | one turn of the walk lowers or unlinks its node and goes on to the next |
| `TimerHeap.DownStep` | timer/c++/timing_heap.h:255-270 | moving the earlier child up keeps heap order everywhere but below the new hole |
| `TimerHeap.UpStep` | timer/c++/timing_heap.h:153-161 | moving the parent down keeps heap order everywhere but above the new hole |
| `TimerHeap.RootIsLeast` | timer/c++/timing_heap.h:184-191 | the root is due no later than any timer |
| `TimerHeap.TimeHeap.constructor` | timer/c++/timing_heap.h:65-79 | an empty heap of the given capacity |
| `TimerHeap.TimeHeap.FromArray` | timer/c++/timing_heap.h:87-118 | refused exactly when the capacity is too small, else a heap of exactly the given timers |
| `TimerHeap.TimeHeap.PercolateDown` | timer/c++/timing_heap.h:251-273 | restores heap order from the hole on and keeps the multiset of timers |
| `TimerHeap.TimeHeap.PercolateUp` | timer/c++/timing_heap.h:150-162 | the same upwards |
| `TimerHeap.TimeHeap.Resize` | timer/c++/timing_heap.h:278-296 | twice the capacity, same contents |
| `TimerHeap.TimeHeap.AddTimer` | timer/c++/timing_heap.h:138-163 | keeps heap order and adds exactly that timer, if and only if the capacity is not 0 |
| `TimerHeap.TimeHeap.AddAll` | timer/c++/timing_heap.h:138-163 | a heap made with capacity 0 takes none of the timers offered, any other takes them all |
| `TimerHeap.TimeHeap.DelTimer` | timer/c++/timing_heap.h:170-178 | clears the callback and leaves the heap as it is |
| `TimerHeap.TimeHeap.PopTimer` | timer/c++/timing_heap.h:196-210 | keeps heap order and removes exactly the root |
| `TimerHeap.TimeHeap.Tick` | timer/c++/timing_heap.h:216-242 | removes exactly the timers that are due, in non-decreasing order, and calls those not cancelled, each once; the read of `array[0]` is in range if and only if the capacity is not 0 |
| `TimerList.SlotIsUnique` | timer/c++/lst_timer.h:246-278 | there is one place for a timer: behind all that are due no later |
| `TimerList.SortedTimerList.AddTimer` | timer/c++/lst_timer.h:85-109 | the list holds the old nodes with the timer in its place, and is well formed and sorted if and only if the links that are not written were unset |
| `TimerList.SortedTimerList.AddFront` | timer/c++/lst_timer.h:91-107 | the same for the two branches that make the timer the head |
| `TimerList.SortedTimerList.AddAfter` | timer/c++/lst_timer.h:246-278 | the same, starting behind a node that is due no later |
| `TimerList.SortedTimerList.FindSlot` | timer/c++/lst_timer.h:248-265 | the scanning loop stops at that place |
| `TimerList.SortedTimerList.Splice` | timer/c++/lst_timer.h:255-276 | the pointer writes of an insertion behind a node keep every link of the longer chain, tail included |
| `TimerList.SortedTimerList.Unlink` | timer/c++/lst_timer.h:162-197 | the pointer writes of a removal keep every link of the shorter chain |
| `TimerList.SortedTimerList.AdjustTimer` | timer/c++/lst_timer.h:116-149 | a timer whose deadline was raised moves to its place among the others, and the list is sorted again |
| `TimerList.SortedTimerList.DelTimer` | timer/c++/lst_timer.h:156-198 | removes exactly that node |
| `TimerList.SortedTimerList.Tick` | timer/c++/lst_timer.h:204-238 | fires exactly the due timers, in list order, and keeps the rest |
| `TimerAgreement.TickBoth` | timer/c++/timing_heap.h:216-242 | from equal deadlines, heap and list remove the same deadlines in the same order and keep the same ones |
| `TimerAgreement.TicksAgree` | timer/c++/lst_timer.h:204-238 | what the two ticks promise fixes the removed and the kept deadlines |
| `TimerRuns.RunBoth` | timer/c++/timing_heap.h:138-242 | any run of adds, deletions and ticks has the same log on a heap and on a list, and leaves the same deadlines to be called in both |
| `TimerRuns.RunHeap` | timer/c++/timing_heap.h:138-242 | over any run, each tick of the heap calls exactly the timers started, neither deleted nor called before, that are due, earliest first, although deleted timers stay in the array until they are due |
| `TimerRuns.RunList` | timer/c++/lst_timer.h:85-238 | the same for the list, which holds exactly the waiting timers |
| `TimerRuns.LogIsUnique` | timer/c++/lst_timer.h:204-238 | the specification of a run leaves no choice of what the ticks call |
| `TimerRuns.WaitingSplits` | timer/c++/lst_timer.h:204-238 | a tick splits the waiting deadlines into those due, which it calls, and those that go on waiting |
| `TimerRuns.StopInHeap` | timer/c++/timing_heap.h:170-178 | clearing the callback takes exactly that deadline out of what the heap will call |
| `TimerRuns.StopInList` | timer/c++/lst_timer.h:156-198 | unlinking the timer takes exactly that deadline out of the list |
| `TimerRuns.HeapTurned` | timer/c++/timing_heap.h:216-242 | what a tick removes from the heap, less the cleared callbacks, are the waiting timers that are due, in order |
| `TimerRuns.ListTurned` | timer/c++/lst_timer.h:204-238 | what a tick takes off the front of the list are the waiting timers that are due, in order |
| `SerialLink.EncodeBigBuffer` | serial/c/am_bigbuffer_sender.c:254-303 | the CRC check passes always; the buffer is a frame exactly up to 65539 bytes, and then passes the additive check and carries the documented payload |
| `SerialLink.FillHeader` | serial/c/am_bigbuffer_sender.c:257-286 | magic, 16-bit length, command, frame number, address and size |
| `SerialLink.FillRamp` | serial/c/am_bigbuffer_sender.c:288-292 | the data bytes count up modulo 256, and the header stays |
| `SerialLink.CalcChecksum` | serial/c/am_bigbuffer_sender.c:243-252 | the sum modulo 256 of the bytes |
| `SerialLink.IsChecksumError` | serial/c/am_bigbuffer_sender.c:211-221 | an error exactly when the last byte is not the sum |
| `SerialLink.ReplyToBigBuffer` | serial/c/serial_test2.c:233-252 | the reply accepts exactly the frames whose CRC agrees, and passes the additive check exactly then |
| `SerialLink.FeedFrame` | serial/c/simple_serial_receiver.c:102-160 | a frame fed byte by byte is delivered unchanged |
| `SerialLink.StreamIsDelivered` | serial/c/simple_serial_receiver.c:89-163 | any frames with noise free of 0xAA between them are delivered unchanged and in order |
| `SerialLink.FramesFit` | serial/c/simple_serial_receiver.c:82-160 | frames of at most 1024 bytes never run past the buffer, at any point of the stream |
| `SerialLink.Receiver.OnRead` | serial/c/simple_serial_receiver.c:102-160 | whatever a read returned, the effect is that of its bytes one by one |
| `SerialLink.Receiver.OnLength` | serial/c/simple_serial_receiver.c:115-130 | one or both length bytes in one read make no difference |
| `SerialLink.Receiver.OnBody` | serial/c/simple_serial_receiver.c:141-160 | partial reads of the body accumulate, and the completing one delivers the frame |
| `SerialLink.Receive` | serial/c/simple_serial_receiver.c:78-164 | the loop over any splitting of a stream ends in the state of feeding it byte by byte |
| `SerialLink.ReceiveFrames` | serial/c/simple_serial_receiver.c:78-164 | a stream of frames comes out frame by frame whatever the reads return |
| `SerialLink.Link` | serial/c/simple_serial_receiver.c:78-164 | frames of 12 to 1024 bytes, encoded with the table built for 0x8005, sent with noise free of 0xAA between them and received under any splitting: what is delivered, in order, are frames of those sizes that pass both checks and carry the documented payload where it has room, and each is answered with an acceptance |
| `SerialLink.Receiver.OnNothing` | serial/c/simple_serial_receiver.c:102-160 | a read that returns nothing changes nothing outside a body, and inside one delivers the frame as it stands |
| `Crc16.StepLinear` | serial/c/am_bigbuffer_sender.c:54-57 | one step of the division is linear over exclusive or |
| `Crc16.StepsInjective` | serial/c/am_bigbuffer_sender.c:52-59 | for a polynomial with constant term, steps lose nothing |
| `Crc16.TableStep` | serial/c/am_bigbuffer_sender.c:78-78 | one table look-up is eight steps of the division |
| `Crc16.BuilderStep` | serial/c/am_bigbuffer_sender.c:54-58 | on registers that grow past 16 bits, the low 16 bits do one step of the division |
| `Crc16.BuildTable` | serial/c/am_bigbuffer_sender.c:42-62 | every entry is the eight-step remainder of its index, for every polynomial |
| `Crc16.BuildEntry` | serial/c/am_bigbuffer_sender.c:50-60 | the same for one entry |
| `Crc16.BlockCrcByTable` | serial/c/am_bigbuffer_sender.c:64-81 | for every block, 16-bit seed and complement flag, the table form equals the bit-serial one |
| `Crc16.OneByteErrorIsSeen` | serial/c/am_bigbuffer_sender.c:64-86 | equally long blocks that differ in exactly one byte have different CRCs |
| `CrcDivision.BurstIsSeen` | serial/c/am_bigbuffer_sender.c:64-86 | with and without complement: different blocks of equal length whose bits differ only inside some sixteen consecutive ones have different CRCs |
| `CrcDivision.DirectLinear` | serial/c/am_bigbuffer_sender.c:64-81 | the registers of two messages differ by the register of their difference |
| `CrcDivision.BlockIsDirect` | serial/c/am_bigbuffer_sender.c:64-81 | the byte-wise register is that of feeding the bits of the message one by one |
| `CrcDivision.CrcIsRemainder` | serial/c/am_bigbuffer_sender.c:64-86 | it is the remainder of schoolbook long division of the message with sixteen zero bits appended |
| `InternetChecksum.FoldReduces` | checksum/c/tcp_checksum.c:34-38 | folding keeps the residue modulo 65535, and two folds reduce any 32-bit sum |
| `InternetChecksum.AddBytes` | checksum/c/tcp_checksum.c:17-32 | for every buffer up to 65535 bytes the accumulator is the exact sum and does not overflow |
| `InternetChecksum.Chksum` | checksum/c/tcp_checksum.c:11-42 | the result is the one's complement checksum of RFC 1071 |
| `InternetChecksum.SumUpdate` | checksum/c/tcp_checksum.c:19-27 | changing an aligned word changes the sum by the difference |
| `InternetChecksum.StoredChecksumVerifies` | checksum/c/tcp_checksum.c:11-42 | storing the checksum in a zeroed aligned field makes the checksum of the whole 0 |
| `InternetChecksum.ZeroChecksumMeans` | checksum/c/tcp_checksum.c:34-41 | the checksum is 0 exactly when the words sum to a positive multiple of 65535 |
| `InternetChecksum.LittleReducesToSwap` | network/ping/c/ping.c:22-36 | summing words of the other byte order gives the byte-swapped residue |
| `InternetChecksum.ComputeCksum` | network/ping/c/ping.c:16-40 | on a little-endian machine and an even length, the result is the byte-swapped checksum |
| `InternetChecksum.AddWords` | network/ping/c/ping.c:22-26 | the word sum is exact |
| `MemoryPool.ClassExists` | memory/MemoryPool/c++/MemoryPool.cpp:15-18 | class i exists exactly when MIN_SIZE * 2^i does not exceed the maximum |
| `MemoryPool.ClassFits` | memory/MemoryPool/c++/MemoryPool.cpp:47-54 | a class found holds the request and, above MIN_SIZE, is less than twice as large |
| `MemoryPool.IndexInRangeExactly` | memory/MemoryPool/c++/MemoryPool.cpp:47-56 | the index is in range for every request up to the maximum if and only if the maximum is a class size |
| `MemoryPool.IndexInRangeFor` | memory/MemoryPool/c++/MemoryPool.cpp:47-56 | for one request the index is in range if and only if the largest class holds it |
| `MemoryPool.ServesAllExactly` | memory/MemoryPool/c++/MemoryPool.cpp:10-18 | a pool serves every request up to its maximum if and only if it was made for at least 1024 or for a class size |
| `MemoryPool.IndexOutOfRange` | memory/MemoryPool/c++/MemoryPool.cpp:47-56 | with a maximum of 100, a request of 70 gets the index behind the last class |
| `MemoryPool.MemoryChunk.constructor` | memory/MemoryPool/c++/MemoryChunk.cpp:3-20 | as many free blocks as asked for, none handed out |
| `MemoryPool.MemoryChunk.CreateBlock` | memory/MemoryPool/c++/MemoryChunk.cpp:77-89 | a new block that knows its chunk and size, counted once |
| `MemoryPool.MemoryChunk.Push` | memory/MemoryPool/c++/MemoryChunk.cpp:17-18 | the block links to the old head and becomes the head; the links again spell out the free blocks, each once |
| `MemoryPool.MemoryChunk.Malloc` | memory/MemoryPool/c++/MemoryChunk.cpp:38-61 | hands out a block that was not out, the head of the free list if there is one |
| `MemoryPool.MemoryChunk.Free` | memory/MemoryPool/c++/MemoryChunk.cpp:69-75 | the block is in front of the free list and no longer out |
| `MemoryPool.MemoryChunk.Conserved` | memory/MemoryPool/c++/MemoryChunk.cpp:38-89 | free blocks and blocks handed out make up m_iBlockCount |
| `MemoryPool.MemoryChunk.Destroy` | memory/MemoryPool/c++/MemoryChunk.cpp:22-36 | the destructor's assertion holds exactly when nothing is handed out |
| `MemoryPool.CMemoryPool.constructor` | memory/MemoryPool/c++/MemoryPool.cpp:4-27 | for any maximum: it keeps the lesser of that and 1024, one chunk per class, nothing live |
| `MemoryPool.CMemoryPool.BuildChunks` | memory/MemoryPool/c++/MemoryPool.cpp:22-26 | distinct chunks, one for each class, in order of size |
| `MemoryPool.CMemoryPool.New` | memory/MemoryPool/c++/MemoryPool.cpp:38-57 | a block no live pointer has, large enough and less than twice too large, or of exactly the size from the heap; null, with nothing changed, if and only if the class index is out of range |
| `MemoryPool.CMemoryPool.FindClass` | memory/MemoryPool/c++/MemoryPool.cpp:47-54 | the search loop ends at a class that fits, or behind the last one exactly when none does |
| `MemoryPool.CMemoryPool.Delete` | memory/MemoryPool/c++/MemoryPool.cpp:59-87 | the size in front of a live block routes it back to its own chunk, or to the heap; no other chunk changes |
| `MemoryPool.CMemoryPool.Write` | memory/MemoryPool/c++/MemoryChunk.h:20-27 | overwriting the word of a live block that a free one links by changes no free list |
| `MemoryPool.CMemoryPool.DestroyIsClean` | memory/MemoryPool/c++/MemoryPool.cpp:29-36 | with nothing live every chunk's destructor finds all its blocks |
| `MemoryPool.Run` | memory/MemoryPool/c++/MemoryPool.cpp:4-87 | over any sequence of New, Delete and writes to held blocks on any pool, the blocks held are distinct and are all that is live, and once all are given back every destructor finds all its blocks |

## Left out

- cJSON numbers that are no integers below 10^15: rounding of `double`, `sprintf`/`sscanf` precision, NaN and infinity, `valueint` saturation and locale decimal points.
- cJSON raw and reference items, allocator hooks and failing allocation, and NULL arguments.
- cJSON sibling and child pointers: the chain of children is a sequence, so updates in place and aliasing of items are not captured; `cJSON_Compare` is modelled on separately allocated trees (a pointer compared with itself is accepted at once).
- An accepted `\u0000` puts a NUL byte inside a string; the parser model keeps it, the printer model takes what stands in front of it.
- cJSON tree editing (add, detach, replace, insert), `cJSON_Minify` and the type predicates: easy members, or, for Minify, no clean law.
- CJsonRoundTrip.ParseThenPrintThenParse: covers the trees that the printer model takes; a text holding 1.5 parses to one it does not, and for one holding `\u0000` see `AcceptedPrintsAgain`.
- CJsonPrinter.PrintBuffer.Ensure: the copy to a larger buffer is cut off at the old buffer's length; without `realloc` the source copies one byte more than the offset, which for a buffer of size 0 is past its end.
- CJsonPrinter.PrintBuffer.PrintNumber: takes the integer and its digits instead of the text `sprintf` wrote, because the formatting is library code.
- Timers: freeing of timers, and what callbacks do.
- TimerRuns.RunHeap: takes a capacity above 0, since a heap of capacity 0 takes no timer (`AddAll`); a timer is deleted only while it waits, because containers free timers they have called; the same holds for `TimerRuns.RunBoth`.
- Thread pool: failing `pthread_*` calls, freeing of jobs and of the pool, and callers that use the pool after its destruction.
- Barrier.BarrierHolds: the generation counter is unbounded, so wrap-around after 2^32 generations is not modelled.
- TimerList.SortedTimerList.AddTimer: takes a timer that is not in the list already; adding one twice is not modelled.
- TimerList.SortedTimerList.AdjustTimer: takes a timer whose deadline was only raised, the case the source says it handles.
- SerialLink.EncodeBigBuffer: requires at least 12 bytes, because the source writes twelve header bytes unconditionally.
- SerialLink.ReplyToBigBuffer: requires at least 9 bytes, because the source computes the CRC of `uiBuffLen - 9` bytes; the other commands of `ProcessRecvBuffer` are left out.
- SerialLink.Receiver.OnRead: frames longer than the 1024-byte buffer are not modelled, because the source then writes past it; the same holds for `SerialLink.Receiver.OnBody` and `SerialLink.Receive`.
- Crc16.BlockCrcByTable: takes 16-bit seeds, since a larger seed indexes past the table.
- InternetChecksum.ComputeCksum: even lengths only; for an odd length the source masks the byte behind the buffer.
- Memory pool: failing `malloc`, the chunk's lock and the byte layout of headers; of the data of a block the model has the one word that a free block links by.
- Sockets, serial ports, files, cameras, Lua, zlib, MD5 and logging: input/output or libraries outside the repository.
- `containers/`, `datetime/`, string and macro helpers and the remaining demo programs: no hard law, or none that the code keeps on all runs.
