# A model of TCP-sample in Dafny

The repository holds `mperf`, a bandwidth test between a client and a server, and the mTCP stack with its
patched `ixgbe` driver. This project models the parts of both whose correctness is not obvious, and proves
what they are for.

- **JSON** (`mperf/cjson.c`). A pure function gives the text of a tree (`JsonText`), another reads a text
  (`JsonGrammar`, `Utf`). The parser (`JsonParser`), the printer with its growing or fixed buffer
  (`JsonPrinter`) and the in-place minifier (`JsonMinify`) are classes and methods proved against them.
  Reading what was printed gives the tree back (`JsonRoundTrip`), minifying formatted text gives unformatted
  text and keeps the meaning of every text that is a value (`JsonMeaning`), comments go and strings stay
  (`JsonComments`), and the two passes over a string literal agree on its size (`JsonStrings`). A grammar with a
  meaning, independent of the parser, says which texts are accepted as what (`JsonSpelling`, `JsonNumerals`,
  `JsonSyntax`), and in which layout trees are printed (`JsonLayout`). `ChildList` has the doubly linked list of
  children.
- **Shared resources of the network card** (`ixgbe_common.c`). `SwfwSync` interleaves any number of drivers
  and the firmware, one register access at a time, and proves mutual exclusion, with the exact condition under
  which the semaphore is respected throughout a run; `SwfwHistory` says how long a call tries and what it leaves.
- **Timers** (`mperf/timer.c`). `Timers` keeps the sorted active list and the free list in linked objects and
  proves what one run of the scheduler fires, in which order, and what order it leaves; `TimerSchedule` shows that
  this determines the run.
- **The test session** (`mperf/server.c`, `mperf/client.c`, `mperf/mperf_config.c`). `MperfConfig` carries the
  configuration as a framed JSON text from one side to the other; `MperfSession` runs both workers over FIFO
  channels while strangers connect.
- **Hashes.** `FlowHash` proves the byte-wise Flow Director hash of the 82599 equal to its bit-level
  definition, `Rss` does the same for the cached Toeplitz hash and shows when it is symmetric.
- **Byte buffers** (`mtcp/util/ring_buffer.c`) in `RingBuffer`, and **dates** (`mtcp/util/tdate_parse.c`) in
  `Calendar`.

`Bytes`, `Bits`, `CDivision` and `JsonValue` hold shared definitions. `dafny verify dfyconfig.toml` checks everything.

Where the code does not do what one would expect, the model follows the code:

- `tm_to_time` asks whether a year is a leap year by its count since 1900. It is a day short from March 2000
  on to the end of that year, a day long from March to December 2300 and 2700, and so every 400 years; before
  1970 it is right in every fourth year only. `TmToTime` states the exact conditions. Later dates never get
  earlier days, but some neighbouring days collide: 29 February and 1 March of 2000, and the last day of 2300
  with the first of 2301. `FormulaOrder` says exactly which.
- A configuration with block size zero leaves the member out, and the server keeps its own block size.
  `DefaultAgreement` shows that this is the only value that is lost.
- `ixgbe_release_swfw_sync` does not look at the result of taking the semaphore.
  `UncheckedReleaseBreaksExclusion` gives a run in which a resource then has two owners. `StepExact` and
  `RunExact` show that the semaphore is respected if and only if no release goes on without it.
- `ixgbe_atr_compute_hash_82599` reads the key in memory order. On a little-endian machine the definition in
  its comment therefore holds for the byte-swapped key (`ByteOrder`), and for the key as given if and only if
  that is its own byte swap (`LittleEndianIff`; `ByteOrderMatters` gives a key and a stream).
- A block comment may end with the star it began with (`SlashEndsComment`), and a `\u` without digits ends a string.
- The printer wants one byte more than text and terminator for everything but a bare number
  (`PrintPreallocated`).

## Model

| member | source | states |
|---|---|---|
| JsonRoundTrip.ParsePrinted | mperf/cjson.c:940-1661 | for every Raw-free tree of C strings and integers below 10^15, parsing its text, formatted or not, strictly or not, gives the same tree and ends on the terminator if no value lies in more than 1000 containers, and fails otherwise |
| JsonRoundTrip.ReadPrinted | mperf/cjson.c:1151-1204 | a printed value anywhere in a terminated text, at any depth, is read back and the cursor ends behind it, exactly when the nesting limit allows |
| JsonRoundTrip.ReadPrintedArray | mperf/cjson.c:1285-1376 | the same for arrays, the depth counted once |
| JsonRoundTrip.ReadPrintedObject | mperf/cjson.c:1441-1547 | the same for objects |
| JsonRoundTrip.ReadPrintedString | mperf/cjson.c:654-780 | unescaping undoes escaping for every string of non-zero bytes |
| JsonRoundTrip.ReadPrintedNumber | mperf/cjson.c:230-304 | the decimal digits of an integer are read back as that integer, whatever delimiter follows |
| JsonParser.ParseBuffer.constructor | mperf/cjson.c:954-957 | the content is the text with its terminator, cursor and depth at zero |
| JsonParser.ParseBuffer.SkipWhitespace | mperf/cjson.c:919-937 | the cursor stops at the first byte above 32, or on the last byte |
| JsonParser.ParseBuffer.CopyNumber | mperf/cjson.c:243-276 | the longest run of number bytes that fits into the temporary buffer is copied |
| JsonParser.ParseBuffer.ParseNumber | mperf/cjson.c:230-304 | value and cursor as `strtod` on that run gives them, or failure with the cursor unmoved |
| JsonParser.ParseBuffer.FindClosingQuote | mperf/cjson.c:667-698 | where the string ends and how many backslash pairs it has, or that it does not end |
| JsonParser.ParseBuffer.UnescapeOne | mperf/cjson.c:702-754 | one step of the second pass: the bytes it writes, what it consumes, and that nothing before them changes |
| JsonParser.ParseBuffer.UnescapeLiteral | mperf/cjson.c:691-761 | the second pass writes exactly the bytes of the string into the allocation made from the first pass |
| JsonParser.ParseBuffer.ParseString | mperf/cjson.c:654-780 | the C string and the cursor behind the closing quote, or where it fails |
| JsonParser.ParseBuffer.ParseValue | mperf/cjson.c:1151-1204 | value, cursor and restored depth, or failure with the cursor at the error |
| JsonParser.ParseBuffer.ParseArray | mperf/cjson.c:1285-1376 | the loop collects exactly the elements of the grammar, and restores the depth |
| JsonParser.ParseBuffer.ParseMember | mperf/cjson.c:1497-1521 | one name, colon and value |
| JsonParser.ParseBuffer.ParseObject | mperf/cjson.c:1441-1547 | the loop collects exactly the members of the grammar, and restores the depth |
| JsonParser.ParseWithOpts | mperf/cjson.c:940-1019 | the tree and the end of its text, or failure and the place of the error, also when a terminator is demanded and missing |
| JsonSyntax.Accepts | mperf/cjson.c:940-1019 | every text of the JSON grammar, with any white space, escapes and numerals, is parsed strictly to what it means, within the nesting limit |
| JsonSyntax.AcceptsBefore | mperf/cjson.c:940-1019 | without the demand for a terminator, anything that does not go on a number may follow |
| JsonSyntax.Accepted | mperf/cjson.c:940-1019 | conversely, whatever is parsed strictly is such a text, means the tree that was returned, and is within the nesting limit |
| JsonSyntax.DocRead | mperf/cjson.c:1151-1204 | a value in any layout is read as what it means wherever it stands |
| JsonSyntax.DocOf | mperf/cjson.c:1151-1547 | whatever is read as a value is a value in some layout that means what was read |
| JsonSpelling.SpellingRead | mperf/cjson.c:654-780 | every sequence of plain bytes, of the eight one-letter escapes of section 7 of RFC 8259, of code units and of surrogate pairs between quotes is read as exactly the bytes it spells, up to a zero among them |
| JsonSpelling.AcceptedSpelling | mperf/cjson.c:654-780 | conversely, every accepted literal consists of these, up to a `\u` without four digits, which ends the string, and was read as what they spell |
| JsonSpelling.StepPiece | mperf/cjson.c:702-754 | one step of the second pass writes what one such item spells |
| JsonNumerals.NumeralRead | mperf/cjson.c:230-304 | every numeral of up to 63 bytes, with fraction and exponent, is read as its value by places, as an exact number |
| JsonNumerals.AcceptedNumeral | mperf/cjson.c:230-304 | conversely, what is read as a number is a numeral with that value |
| JsonNumerals.LongNumber | mperf/cjson.c:233-276 | of a longer run of digits exactly 63 are read |
| JsonStrings.StringFits | mperf/cjson.c:654-766 | for every input the second pass and its terminator stay below the size computed by the first pass, also where a bad hexadecimal digit makes the passes disagree on escapes |
| JsonStrings.StepFits | mperf/cjson.c:702-754 | every step writes no more than the places it frees |
| Utf.ParseHex4 | mperf/cjson.c:496-529 | the value of four hexadecimal digits, or zero |
| Utf.Hex4Base | mperf/cjson.c:496-529 | that value is the number in base 16, the first digit the highest |
| Utf.LiteralMeaning | mperf/cjson.c:533-651 | a well-formed escape or pair is accepted exactly when UTF-16 decoding gives a code point, a lone surrogate is rejected, and the written bytes are the only ones that UTF-8 decodes to that code point |
| Utf.Utf8RoundTrip | mperf/cjson.c:596-645 | a byte sequence decodes to a code point if and only if it is its UTF-8 form |
| Utf.ReadLiteral | mperf/cjson.c:533-626 | an accepted escape is 6 or 12 bytes long and gives a scalar value, so the branch for code points above 0x10FFFF is dead |
| Utf.DecodeLiteral | mperf/cjson.c:533-594 | code point and length of the escape, or failure |
| Utf.EncodeUtf8 | mperf/cjson.c:596-645 | the UTF-8 form is written at the output pointer and nothing else changes |
| Utf.WriteForm | mperf/cjson.c:628-643 | filling the bytes from last to first gives the UTF-8 form |
| Utf.LiteralToUtf8 | mperf/cjson.c:533-651 | both halves together, or no change at all |
| Utf.BitForms | mperf/cjson.c:588-643 | the arithmetic of the model equals the shifts and masks of the code, for all 32-bit words |
| JsonPrinter.PrintBuffer.Growing | mperf/cjson.c:1029-1038 | an empty buffer that may grow |
| JsonPrinter.PrintBuffer.Buffered | mperf/cjson.c:1102-1122 | an empty buffer of the given size that may grow |
| JsonPrinter.PrintBuffer.Preallocated | mperf/cjson.c:1131-1147 | the caller's buffer, which may not grow |
| JsonPrinter.PrintBuffer.Ensure | mperf/cjson.c:337-414 | succeeds exactly when the limit allows, then has room for the bytes and a terminator and keeps what was written; a buffer that is too small grows to twice what is needed, or to the limit; otherwise nothing changes |
| JsonPrinter.PrintBuffer.UpdateOffset | mperf/cjson.c:417-427 | the offset moves behind the C string that stands at it |
| JsonPrinter.CountEscapes | mperf/cjson.c:810-834 | how many bytes escaping adds |
| JsonPrinter.PrintBuffer.EscapeInto | mperf/cjson.c:853-897 | the copying loop writes the opening quote and the escaped bytes |
| JsonPrinter.PrintBuffer.QuoteEscaped | mperf/cjson.c:853-899 | with the closing quote this is the text of the string, terminated, and earlier bytes are untouched |
| JsonPrinter.PrintBuffer.PrintString | mperf/cjson.c:783-902 | succeeds exactly when the text and two bytes fit; then the text stands at the offset, terminated, and earlier bytes are untouched |
| JsonPrinter.PrintBuffer.PrintValue | mperf/cjson.c:1207-1282 | succeeds exactly when the pure text and its slack fit; then that text stands at the starting offset and the depth is restored |
| JsonPrinter.PrintBuffer.PrintArray | mperf/cjson.c:1379-1438 | the same for arrays |
| JsonPrinter.PrintBuffer.PrintElems | mperf/cjson.c:1402-1426 | its loop writes the elements with their separators behind what stands there |
| JsonPrinter.PrintBuffer.PrintObject | mperf/cjson.c:1550-1661 | the same for objects |
| JsonPrinter.PrintBuffer.PrintMembers | mperf/cjson.c:1577-1641 | its loop writes the members behind what stands there |
| JsonPrinter.PrintBuffer.KeyNext | mperf/cjson.c:1579-1612 | its part before the value: indentation, key, colon; success exactly when it fits |
| JsonPrinter.PrintBuffer.PrintMember | mperf/cjson.c:1579-1640 | one member: indentation, key, colon, value, line end; success exactly when it fits |
| JsonPrinter.Print | mperf/cjson.c:1029-1089 | the C string in the returned buffer is the pure text, for any sequence of reallocations |
| JsonPrinter.PrintBuffered | mperf/cjson.c:1102-1129 | the same for any positive starting size |
| JsonPrinter.PrintPreallocated | mperf/cjson.c:1131-1148 | succeeds if and only if text and slack fit into the buffer, with the same text |
| JsonLayout.PrintedLayout | mperf/cjson.c:1207-1661 | the printed text byte for byte: no white space unformatted; formatted, a blank behind each comma of an array, a tab behind each colon, each member and each closing brace on a line of its own, indented by its depth |
| JsonLayout.PieceOf | mperf/cjson.c:783-902 | a byte is printed as itself unless it is a control, a quote or a backslash; with its letter if it has one; otherwise with four lower-case digits |
| JsonLayout.PrintedNumber | mperf/cjson.c:430-493 | an integer is printed without leading zeros, point, exponent or negative zero |
| JsonMinify.MinifyPrinted | mperf/cjson.c:2350-2412 | minifying the formatted text of any Raw-free tree gives its unformatted text, which minifying leaves alone |
| JsonComments.MinifyPieces | mperf/cjson.c:2350-2412 | a text made of blanks, strings, comments of both kinds and other bytes is minified to its strings and other bytes, in their order |
| JsonComments.MinifiableIff | mperf/cjson.c:2350-2412 | a text can be minified if and only if it is made of these, that is if no string and no block comment is left open |
| JsonComments.OnePiece | mperf/cjson.c:2355-2407 | at any place of any text: a line comment is removed up to the newline or the end, a block comment up to the first end mark, a blank by itself; the rest is minified as if they were not there |
| JsonComments.CommentDropped | mperf/cjson.c:2372-2388 | putting a comment anywhere outside the strings makes no difference |
| JsonComments.SlashEndsComment | mperf/cjson.c:2380-2388 | a slash right behind the opening mark of a comment ends it, so that the apparent rest of the comment stays |
| JsonMeaning.MinifyKeepsMeaning | mperf/cjson.c:2350-2412 | every C string that parses, to its end, as a value is minified to a text that parses as the same value; no such text has a comment outside its strings, nor an open string |
| JsonMeaning.ValueBecomes | mperf/cjson.c:1151-1204 | a value anywhere in such a text is minified to a text that is read as the same value wherever it stands |
| JsonMeaning.StringBecomes | mperf/cjson.c:2389-2402 | a string literal is kept byte by byte and read as the same string wherever it stands |
| JsonMeaning.WhiteBecomes | mperf/cjson.c:919-937 | where the parser skips, minifying leaves nothing but bytes it skips |
| JsonMinify.Minify | mperf/cjson.c:2350-2412 | the in-place loops leave exactly the minified text, the write index never passing the read index |
| JsonMinify.MinifyRound | mperf/cjson.c:2355-2407 | one round of the main loop writes what it must and reads on |
| JsonMinify.CopyString | mperf/cjson.c:2389-2402 | a string is copied down byte by byte up to its closing quote |
| JsonMinify.CopyDown | mperf/cjson.c:2397-2406 | one byte moves down and the unread part is intact |
| JsonMinify.SkipLine | mperf/cjson.c:2372-2379 | a line comment is passed up to its end |
| JsonMinify.SkipComment | mperf/cjson.c:2380-2388 | a block comment is passed up to its end mark |
| ChildList.Item.constructor | mperf/cjson.c:168-178 | an item starts unlinked and childless |
| ChildList.Item.GetItem | mperf/cjson.c:1679-1696 | the walk finds the item at the index, or none |
| ChildList.Item.AddItem | mperf/cjson.c:1774-1799 | appends to the sequence of children, pointers staying inverse and null-ended |
| ChildList.Item.Insert | mperf/cjson.c:1915-1942 | inserts at the index, appends beyond the end, does nothing below zero |
| ChildList.Item.DetachViaPointer | mperf/cjson.c:1845-1873 | removes the item from the sequence and unlinks it |
| ChildList.Item.Detach | mperf/cjson.c:1875-1883 | removes the item at the index, or nothing |
| ChildList.Item.ReplaceViaPointer | mperf/cjson.c:1944-1977 | puts the new item in the old one's place; fails without one; the same item twice changes nothing |
| ChildList.Item.InsertThenDetach | mperf/cjson.c:1875-1942 | detaching at the place of an insertion gives the old list and an unlinked item back |
| ChildList.RemovedInserted | mperf/cjson.c:1875-1942 | the same law on sequences |
| SwfwSync.MutualExclusion | mtcp/io_engine/driver/ixgbe_common.c:2022-2082 | in every run of any number of drivers and the firmware no resource bit has two owners, GSSR holds exactly what was acquired and not released, and at most one party is inside the semaphore |
| SwfwSync.OnlyOwnBits | mtcp/io_engine/driver/ixgbe_common.c:2022-2082 | an acquisition sets only bits that were free on both sides, a release clears exactly the caller's mask, every other step leaves GSSR alone |
| SwfwSync.RunKeepsInv | mtcp/io_engine/driver/ixgbe_common.c:785-860 | the semaphore, ownership and copy invariants hold after every sequence of steps |
| SwfwSync.StepExact | mtcp/io_engine/driver/ixgbe_common.c:2070-2082 | from every state in which the semaphore is respected, a step keeps it respected if and only if it is not a release going on without the semaphore |
| SwfwSync.RunExact | mtcp/io_engine/driver/ixgbe_common.c:785-860 | for every possible run, the semaphore is respected after every prefix if and only if no release goes on without it |
| SwfwSync.StepKeepsSemaphore | mtcp/io_engine/driver/ixgbe_common.c:785-860 | SMBI and SWESMBI belong to at most one driver, and never to a driver while the firmware is inside |
| SwfwSync.RunKeepsApart | mtcp/io_engine/driver/ixgbe_common.c:2022-2060 | if the firmware looks before it takes, no resource is held by a driver and by the firmware |
| SwfwSync.UncheckedReleaseBreaksExclusion | mtcp/io_engine/driver/ixgbe_common.c:2070-2082 | a run of three drivers in which a release goes on without the semaphore and a resource ends up with two owners |
| SwfwSync.RetryReachesWrite | mtcp/io_engine/driver/ixgbe_common.c:2029-2059 | a driver that found the resource in use on a try before its last reaches its write once the resource is free and nobody else steps |
| SwfwHistory.CallReturns | mtcp/io_engine/driver/ixgbe_common.c:2022-2082 | in every run: an acquisition that returns without having written GSSR has seen SMBI set 2000 times in a row, or SWESMBI not set 2000 times in a row, or the resource in use exactly 200 times, and holds what it held; one that has written holds its mask in addition; a release always writes and holds its mask no more |
| SwfwHistory.CallGoesOn | mtcp/io_engine/driver/ixgbe_common.c:2022-2060 | as long as an acquisition has not returned none of these limits has been passed |
| SwfwHistory.RunRemembers | mtcp/io_engine/driver/ixgbe_common.c:785-860 | after every run the loop counters of a call equal the numbers of reads that the run shows |
| TimerSchedule.AddUsecsMoves | mperf/timer.c:125-134 | the time moves by exactly the period |
| TimerSchedule.AddUsecsNormalises | mperf/timer.c:125-134 | exactly when the microseconds come out normalised |
| Timers.TimerQueue.ListAdd | mperf/timer.c:60-100 | inserted behind every timer not later, before all later ones; links kept, and the list sorted by time with equal times in the order of insertion, which the timer's number records |
| Timers.TimerQueue.FindPlace | mperf/timer.c:80-92 | the walk stops at the first later timer or at the end |
| Timers.TimerQueue.ListRemove | mperf/timer.c:103-112 | removed from the sequence, links kept |
| Timers.TimerQueue.ListResort | mperf/timer.c:115-122 | one timer with a new time is moved to its place and counts as inserted last |
| Timers.TimerQueue.TakeFree | mperf/timer.c:147-155 | the first free timer is reused, or a new one made |
| Timers.TimerQueue.Prepare | mperf/timer.c:143-163 | a timer that is on neither list, with its settings and time, both lists valid |
| Timers.TimerQueue.Create | mperf/timer.c:137-166 | all invariants kept; the new timer is behind every timer due no later; it comes from the free list if that has one, and otherwise one timer more exists; normalised for a period that is not negative; it counts as inserted last |
| Timers.TimerQueue.Reset | mperf/timer.c:218-227 | the timer is rescheduled from now and put behind every timer due no later and before all later ones; the others keep their order, no timer is lost, the order of insertion among equal times is kept, and the timer counts as inserted last |
| Timers.TimerQueue.Cancel | mperf/timer.c:230-239 | the timer moves from the active to the free list, and no timer is lost |
| Timers.TimerQueue.Timeout | mperf/timer.c:169-187 | none if nothing is active, else the smallest wait over all active timers, never negative, normalised |
| Timers.TimerQueue.Run | mperf/timer.c:190-215 | terminates; the callbacks made are the one schedule there is; a timer fires if and only if it was due; a one-shot timer once, after which it is free; a periodic one is moved by a period each time, and a normalised one by no more than a period past now; normalised times stay so; what is still due is periodic and fired in this run; every callback is made at the time its timer stands at after the callbacks before, none of them early, and they come in the order of the list; a timer that does not fire keeps its time and its number, any two such timers keep their order, and those put back are numbered after all that were there, in the order of their last callbacks; active and free timers together are the same as before, and free are those that were and those no longer active |
| TimerSchedule.OneSchedule | mperf/timer.c:198-214 | what a run fires is determined by where the timers stand: due callbacks, each at its timer's own time, in list order, never the same timer twice in a row as the next one was saved, every due timer at least and every one-shot timer at most once, and a periodic timer left due only if it would have come before everything fired after it |
| TimerSchedule.Served | mperf/timer.c:207-211 | in every schedule a periodic timer is moved by its period at each callback and, if normalised, by no more than a period past now |
| TimerSchedule.Called | mperf/timer.c:198-207 | in every schedule a callback is made at the time the timer had, moved on by the timer's callbacks before |
| TimerSchedule.LaterNumber | mperf/timer.c:208-211 | timers that are put back are numbered in the order of their last callbacks |
| Timers.TimerQueue.FireDue | mperf/timer.c:198-214 | the loop keeps the books of a run and stops at the end or at the first timer that is not due |
| Timers.TimerQueue.OrderedRound | mperf/timer.c:198-214 | a round's callback comes in turn, and the timers passed by come before the saved next one |
| Timers.TimerQueue.Round | mperf/timer.c:198-214 | one round fires one timer, keeps the account of all, and less is due from the saved next timer on |
| Timers.TimerQueue.Fire | mperf/timer.c:207-213 | a periodic timer is moved on and sorted in no earlier than it stood, a one-shot timer is freed |
| Timers.TimerQueue.Cleanup | mperf/timer.c:242-252 | the free list is emptied |
| Timers.TimerQueue.Destroy | mperf/timer.c:255-261 | both lists are emptied |
| TimerSchedule.RankOrders | mperf/timer.c:82-84 | comparing seconds and then microseconds orders times as one number does |
| MperfConfig.CaseInsensitiveEqual | mperf/cjson.c:85-106 | true exactly when both C strings are equal in lower case |
| MperfConfig.FoldedIff | mperf/cjson.c:85-106 | names are one to the lookup if and only if they differ in nothing but the case of letters |
| MperfConfig.GetObjectItem | mperf/cjson.c:1708-1739 | the first member with that name, letter case aside |
| MperfConfig.FindIff | mperf/cjson.c:1708-1739 | a value is found if and only if it belongs to the first member of that name, letter case aside, and nothing if and only if there is none |
| MperfConfig.ValueIntTruncates | mperf/cjson.c:285-298 | the integer of a number is cut towards zero and saturates; that of `true` is one |
| MperfConfig.SendConf | mperf/mperf_config.c:72-150 | state byte, length and printed text of the object, zero fields left out |
| MperfConfig.JsonRead | mperf/mperf_config.c:31-69 | the tree in a complete frame of less than 2^31 bytes, or failure, also when the peer stops inside the length or announces more |
| MperfConfig.ReadFrame | mperf/mperf_config.c:31-69 | an incomplete frame and one of 2^31 bytes or more are refused, and what follows a complete one does not matter |
| MperfConfig.NetworkOrderSorts | mperf/mperf_config.c:80-91 | the length is sent with the highest byte first |
| MperfConfig.ConnConfig.RecvConf | mperf/mperf_config.c:154-205 | each field present is overwritten with its truncated value, others stay; success exactly when the version matches; a failed read changes nothing |
| MperfConfig.TakeField | mperf/mperf_config.c:173-186 | one field is overwritten if its member is present |
| MperfConfig.TakenWraps | mperf/mperf_config.c:173-186 | a value that does not fit into its field differs from what is stored by a multiple of the width |
| MperfConfig.AppliedByName | mperf/mperf_config.c:173-186 | each setting is overwritten by the member of its own name and by no other |
| MperfConfig.KeyNames | mperf/mperf_config.c:123-137 | the names by which the settings travel |
| MperfConfig.VersionNames | mperf/mperf_config.c:138-192 | the name and the text of the version |
| MperfConfig.AnyFrameRead | mperf/mperf_config.c:31-102 | reading any written frame gives its object back |
| MperfConfig.FrameRead | mperf/mperf_config.c:31-102 | reading a written frame gives the described object back, through the printer, the framing and the parser |
| MperfConfig.Agreement | mperf/mperf_config.c:106-205 | the server accepts a client's frame if and only if the client's version starts with its own, and ends with the client's configuration if and only if it agrees with the client on every field left out |
| MperfConfig.DefaultAgreement | mperf/mperf_config.c:106-205 | with the built-in settings the configurations agree if and only if the block size is not zero |
| MperfSession.ServerWorker.constructor | mperf/server.c:267-280 | a server with built-in settings and no connections |
| MperfSession.ServerWorker.SetTestState | mperf/mperf_api.c:280-293 | the state is set and sent |
| MperfSession.ServerWorker.Accept | mperf/server.c:81-175 | which connections become control or data connection, and that a denied one changes nothing |
| MperfSession.ServerWorker.HandleMessage | mperf/server.c:177-237 | new state, configuration, answer and return value for every message, and for a closed connection, in every state |
| MperfSession.ServerWorker.HandleEvents | mperf/server.c:333-388 | a round handles the ready events in order up to the first that does not return zero, and the loop ends exactly when the state is END or ERROR |
| MperfSession.ClientWorker.constructor | mperf/client.c:78-119 | a client with its configuration before the session |
| MperfSession.ClientWorker.HandleMessage | mperf/client.c:135-231 | new state, answer and return value for every message, and for a closed connection, in every state |
| MperfSession.ClientWorker.SendData | mperf/client.c:304-316 | the data event ends the test and tells the server |
| MperfSession.FrameHandled | mperf/server.c:197-214 | a waiting server takes over the client's settings; it answers CREATE_STREAM if the client's version starts with the package string, and otherwise goes to ERROR and answers that |
| MperfSession.AnyFrameHandled | mperf/server.c:197-214 | of any object whatever: CREATE_STREAM if and only if its first member called client_version, letter case aside, is a string that starts with the package string, otherwise ERROR |
| MperfSession.OtherVersion | mperf/server.c:197-214 | in every run, a client of another version never gets past the exchange of parameters, no data connection is opened, and both sides have failed as soon as the client has read the answer |
| MperfSession.ServerDiscipline | mperf/server.c:177-237 | whatever arrives in whatever state: which messages may change what, and that every state the server chooses is sent |
| MperfSession.ClientDiscipline | mperf/client.c:135-231 | whatever arrives in whatever state: the client moves one stage at a time and only on the message that names it, and answers only the request for its configuration |
| MperfSession.RunKeepsInv | mperf/server.c:298-391 | eleven phases describe every state of every run, whatever strangers do and whatever the client's version |
| MperfSession.Lockstep | mperf/server.c:81-237 | until the client is done, or refused for its version, the server stands where the client stands or one state further, and at most one message is under way |
| MperfSession.OnlyTheClient | mperf/server.c:100-175 | control and data connection are the client's, and neither is ever denied |
| MperfSession.StrangerDenied | mperf/server.c:127-175 | in every run, accepting a stranger changes nothing but the queue of connections and the list of those turned away |
| MperfSession.SameSettings | mperf/mperf_config.c:154-205 | from CREATE_STREAM on the server's configuration equals the client's if and only if the block size is not zero |
| MperfSession.NothingUnexpected | mperf/client.c:135-231 | with a matching version no message meets a worker that does not expect it, the client never fails, the server only after the client is done |
| MperfSession.ForwardStep | mperf/client.c:253-340 | in every phase a step of client or server is possible that takes the session further |
| MperfSession.CanFinish | mperf/client.c:253-340 | from every state in which the server still serves, both sides can reach END, or ERROR if the versions do not match |
| FlowHash.ComputeHash | mtcp/io_engine/driver/ixgbe_82599.c:1576-1690 | for every stream and key, bit by bit the exclusive or of the windows at the set bits below 351 of the shifted, repeated key |
| FlowHash.InterimKey | mtcp/io_engine/driver/ixgbe_82599.c:1627-1643 | the 44 bytes hold bits 351 to 1 of the repeated key |
| FlowHash.InterimStream | mtcp/io_engine/driver/ixgbe_82599.c:1645-1656 | the 46 bytes hold the stream wrapped around by 15 bits at both ends |
| FlowHash.WindowBit | mtcp/io_engine/driver/ixgbe_82599.c:1664-1684 | the three shifted bytes are the 16 bits from the current one on |
| FlowHash.HashDetermined | mtcp/io_engine/driver/ixgbe_82599.c:1578-1607 | the bit-level definition has one solution |
| FlowHash.ByteOrder | mtcp/io_engine/driver/ixgbe_82599.c:1609-1631 | on a little-endian machine the key is used byte-swapped |
| FlowHash.LittleEndianIff | mtcp/io_engine/driver/ixgbe_82599.c:1578-1631 | a little-endian machine hashes every stream as the definition does with the key as given, if and only if the key is its own byte swap |
| FlowHash.SameHashIff | mtcp/io_engine/driver/ixgbe_82599.c:1578-1607 | two keys give the same hash of every stream if and only if they are equal |
| FlowHash.ByteOrderMatters | mtcp/io_engine/driver/ixgbe_82599.c:1609-1631 | a key and a stream for which the byte order changes the hash |
| Rss.BuildKeyCache | mtcp/util/rss.c:92-103 | entry i is the 32-bit window of the key at bit i |
| Rss.GetRSSHash | mtcp/util/rss.c:107-145 | every result bit is the Toeplitz matrix row applied to the 96 input bits |
| Rss.HashDetermined | mtcp/util/rss.c:107-145 | one word satisfies that definition |
| Rss.HashXor | mtcp/util/rss.c:107-145 | the hash is linear |
| Rss.SymmetricIffRepeats | mtcp/util/rss.c:92-145 | for every key, all flows hash alike in both directions if and only if the key repeats after 32 bits under the addresses and after 16 under the ports |
| Rss.BothDirections | mtcp/util/rss.c:83-145 | with the key in use a flow and its replies have the same hash |
| Rss.Redirected | mtcp/util/rss.c:147-163 | the offsets reverse each group of four entries |
| Rss.GetRSSCPUCore | mtcp/util/rss.c:153-165 | the core is a function of the Toeplitz hash and lies below a positive number of queues |
| Rss.CoreOfFlow | mtcp/util/rss.c:147-165 | both directions of every flow get the same core |
| RingBuffer.Buffer.constructor | mtcp/util/ring_buffer.c:40-47 | an empty buffer |
| RingBuffer.Buffer.GetRemainBufferSize | mtcp/util/ring_buffer.c:64-79 | data beyond the middle of the buffer is brought to the front, with its contents kept, and other data stays where it is; the result is the free space behind it |
| RingBuffer.Buffer.RemoveData | mtcp/util/ring_buffer.c:101-117 | a prefix leaves the queue, and an emptied queue starts at the front again; or -1 and no change |
| RingBuffer.Buffer.Append | mtcp/util/ring_buffer.c:119-125 | bytes written at the input point join the end of the queue; the running total counts removed and waiting bytes |
| RingBuffer.CopyData | mtcp/util/ring_buffer.c:127-147 | a prefix of the source is appended to the destination, also when it is the source; less than is there and was asked for only if the destination is then full to its end with at most half of it unused before the data; what was ever removed stays the same |
| RingBuffer.MoveData | mtcp/util/ring_buffer.c:195-220 | the moved prefix leaves the source and joins the destination, and only the source has bytes removed; a buffer moved onto itself has its front brought to the back |
| RingBuffer.MoveToRep | mtcp/util/ring_buffer.c:149-193 | frames of 1 to MAX_REP_LEN bytes whose payloads make up exactly the prefix taken from the source, which is all that is ever removed; stops short only when no more than a header fits, after data beyond the middle was brought to the front |
| RingBuffer.MoveFrame | mtcp/util/ring_buffer.c:162-188 | one header and one payload move over; the payload is what the source has removed |
| RingBuffer.FramesDetermined | mtcp/util/ring_buffer.c:149-193 | the frames of a call determine its payloads, provided that lengths up to MAX_REP_LEN have different headers |
| Calendar.TmToTime | mtcp/util/tdate_parse.c:155-194 | for every date from 1901 on, the seconds obtained by counting days from the epoch plus a stated deviation in days; from 1970 on exact if and only if the month is January or February or the year since 1900 is not 0 or 100 modulo 400, before 1970 if and only if the year is 1 modulo 4 |
| Calendar.FormulaOrder | mtcp/util/tdate_parse.c:162-194 | a later date never counts as an earlier day, and as the same day if and only if the two are 29 February and 1 March of a year that is 100 modulo 400 since 1900, or the turn of a year after which the formula gives up a day |
| Calendar.Ordered | mtcp/util/tdate_parse.c:162-194 | of two dates the later has the later time, if and only if they do not collide or the times of day are in order |
| Calendar.LeapDayCollides | mtcp/util/tdate_parse.c:155-187 | 29 February and 1 March 2000 get the same time |
| Calendar.YearEndCollides | mtcp/util/tdate_parse.c:162-194 | 31 December 2300 and 1 January 2301 get the same time |
| Calendar.CountIncreases | mtcp/util/tdate_parse.c:162-194 | counting days is strictly increasing in the date |

## Left out

- Floating-point text: numbers are exact reals, printed ones integers below 10^15 in magnitude; rounding by `strtod` and `%g`, and the locale's decimal point, are foreign code.
- Allocation failure, hooks and `cJSON_Delete`; a Raw item without a string.
- JsonPrinter.PrintBuffered: not for a starting size of zero, for which it depends on the allocator whether there is a buffer.
- `cJSON_Compare`, which stops at the shorter of two arrays and so is no equality; detaching and replacing by key, which are a lookup followed by the operation on the item; duplicates and references to items.
- JsonMinify.Minify: texts with an unclosed string or comment, on which the original reads past its input, are outside its precondition.
- ChildList.Item.ReplaceViaPointer: the old item must be in the list, as the original follows its pointers without looking.
- SwfwSync: modelled on values, as a state machine over single register accesses, because the property is about interleavings; registers are sets of bits and the management flag of the semaphore is not there. The firmware touches only its own bits of GSSR, and only while the semaphore is not granted to software; acquire and release are paired.
- SwfwSync.MutualExclusion: excludes runs in which a release goes on without the semaphore, because the claim is false there; `RunExact` shows that these are the runs that break the semaphore.
- Timers.TimerQueue.Run: callbacks leave the timer lists alone and periodic timers have a positive period.
- MperfSession: a message on the control connection arrives whole; writes do not fail; other connections come from other addresses and after the client's control connection. Partial reads, `epoll` and what it means for an edge-triggered descriptor that a round of events is abandoned are not modelled: a run may take any enabled event next, and an abandoned event is one that does not happen.
- MperfConfig.JsonRead: states the result only; for a length of 0xFFFFFFFF the original's size for its buffer wraps to zero, and what the read then does to memory is not modelled.
- MperfConfig.ConnConfig.RecvConf: treats a version that is not a string as a mismatch, where the original follows a null pointer.
- MperfConfig.SendConf: rates of 10^15 and more, which are not printed as plain digits. The version is a parameter, up to 2^28 bytes, where the original has the package string of its build.
- JsonSyntax.Accepts: not for strings with a `\u` that four digits do not follow; whether they are accepted depends on the escapes behind it, which do not count for the value.
- RingBuffer.MoveToRep: source and destination are different buffers, and the layout of a frame's header is a parameter, as the header file that defines it is not part of this model.
- RingBuffer.CopyData: not for a negative length, which the original hands on to `memcpy`.
- RingBuffer.MoveData: asks its caller for room in the destination, as the original does not look.
- Rss.GetRSSHash: builds the key cache in every call, where the original keeps it from the first call on.
- Calendar.TmToTime: integer overflow for years that do not fit, and fields that are not a date.
- The rest of the driver, the mTCP core, the HTTP helpers and date formats, the command line, statistics and the example programs: register and I/O plumbing, or thin wrappers over the C library.
