# Verified models of an HTTP proxy core

This project models, in Dafny 4.11, the header machinery of an HTTP proxy core and the
codecs and buffer accounting around it, and proves what the code relies on but never states.
`dafny verify dfyconfig.toml` checks everything.

| part | files | what is proved |
|---|---|---|
| MIME header store | `MimeTokens`, `MimeStore`, `MimeRuns`, `MimePlain`, `MimeHeader`, `MimeCopy` | fields in 16-slot blocks, dup chains, presence bits and packed accelerators agree with a plain scan after every run; the whole store refines a plain list of rows; attach keeps slot order exactly under a condition; copies are isomorphic |
| header heap | `HdrStrings`, `HdrSlots`, `HdrHeap` | allocation, demotion, coalescing, input blocks and inheriting never lose, damage or overlap a string; read-only slots stay in order around a lock |
| marshalling | `HdrXlate`, `HdrMarshal`, `HdrBuffer` | pointer swizzling round trip, exact length, exact condition of the range test |
| scanner, parser, printer | `HttpChars`, `MimeScanner`, `MimeParse`, `MimePrint`, `MimeLineLaws` | independence of slicing, conservation of bytes, windows are slices, parse undoes print, lines by their layout |
| chunked coding | `ChunkedCoding`, `ChunkedGrammar`, `ChunkedHandler` | dechunking undoes chunking for every delivery and slicing; the decoder accepts the whole grammar and rejects exactly the bad sizes |
| dates | `Calendar`, `MimeDate`, `MimeDateText`, `MimeDateLaws` | exact Gregorian conversion up to the first failing day, parse undoes format, what a date text says and means by the calendar |
| gather write | `GatherWrite` | accepted bytes are a prefix of the queued ones for any socket, and what is offered to it |
| URLs | `UrlParse`, `UrlPrint`, `UrlLaws`, `UrlDigest`, `UrlDigestStream` | parse undoes print, what every text parses to, length, digest stream independent of flush points exactly without broken escapes, fast path equals general path |
| comma lists | `CommaList`, `CommaField` | edits of comma separated values are exact, with necessary and sufficient conditions |
| codecs | `Base64`, `UriEscape` | round trips and lengths, and the tables for which they hold |

Each part has the same shape: pure functions say what the code computes, lemmas prove the
properties of those functions over all inputs or all runs, and methods and classes with the
source's own loops and fields are proved to compute exactly those functions.

Conventions used throughout:

- A pointer into a header is a slot number (16 * block + index) or, where addresses matter
  (copying, heaps, marshalling), an address; NULL is `NONE`, `Null` or address 0.
- The presence word is a set of bit positions. The accelerators are the four 32-bit words of
  the source, as bit vectors.
- A field name is a token number or a lower-cased string; tokenizing is a consistent function.
- Characters are bytes 0 to 255; a read at the end of a text yields a character that matches
  nothing.
- Calls into MIOBuffer, StrList and the digest are replaced by their obvious contracts: a
  reader is a sequence of blocks, a list is a sequence, a digest is a fold over its bytes.

Where the code and its comments disagree the code is followed. Four such places: attach
claims to keep dups in slot order (it does so only under the condition of
`MimeStore.AttachKeepsInv`), the chunk handler's constructor sets a state that is not a start
state for decoding, `url_length_get` still counts one character after a file scheme where
`url_print` prints three, and the escape table for refresh headers names '%' in its comment
but not in its mask (`UriEscape.TablesEscapePercent`).

## Model

| member | source | states |
|---|---|---|
| `HttpChars.HexByMembers` | src/ts/ParseRules.h:103-125 | a hexadecimal digit is one of the 22 characters 0-9, a-f, A-F |
| `HttpChars.HexValueIs` | src/http/HttpChunk.cpp:92-97 | each of them, of either case, has the value of its place |
| `HttpChars.TokensByMembers` | src/ts/ParseRules.h:103-125 | the token characters are the letters, the digits and the fifteen marks of section 3.2.6 of RFC 7230 |
| `HttpChars.FoldsCapitals` | src/ts/ParseRules.h:103-140 | folding maps each capital to its small letter and changes nothing else |
| `MimeTokens.FieldTokensConsistent` | src/hdr/HdrToken.cpp:236-312 | in the table of well-known field names no two names share a slot accelerator or a presence bit, and every accelerator index lies below 32 |
| `MimeTokens.SetThenGet` | src/hdr/MIME.cpp:426-455 | writing one of the 32 four-bit accelerators packed in four words changes that one and no other, and reads back what was written |
| `MimeStore.FindIsScan` | src/hdr/MIME.cpp:1229-1299 | under the invariant, lookup through presence bits and accelerators returns exactly the first live field of the name in slot order, or nothing exactly when there is none |
| `MimeStore.LastDup` | src/hdr/MIME.cpp:1440-1449 | following dup pointers from a live field ends at the last live field of its name in slot order |
| `MimeStore.WalkEnd` | src/hdr/MIME.cpp:1434-1452 | the dup behind which the insertion walk stops is a live field of the same name |
| `MimeStore.Predecessor` | src/hdr/MIME.cpp:1513-1532 | the walk that looks for the field before a dup terminates at the one dup that points to it |
| `MimeStore.HeadIsFirst` | src/hdr/MIME.cpp:1405-1426 | for every way of calling attach (with or without dup check, with or without a predecessor) the dup head it works with is the first live field of that name |
| `MimeStore.AttachKeepsInv` | src/hdr/MIME.cpp:1392-1488 | attaching keeps the invariant (complete, strictly slot-ordered dup chains with the head lowest, presence bits equal to the union of the live fields' masks, exact accelerators) when the new slot lies before the second dup or after the last one |
| `MimeStore.AttachOutOfOrderBreaks` | src/hdr/MIME.cpp:1440-1449 | that condition is exact: for every other slot attaching leaves a dup chain out of slot order, because the loop compares with a slot number it never refreshes |
| `MimeStore.NewestFits` | src/hdr/MIME.cpp:1359-1381 | a field created after all others always satisfies the condition |
| `MimeStore.DetachKeepsInv` | src/hdr/MIME.cpp:1491-1546 | detaching any live field keeps the whole invariant |
| `MimeRuns.DestroyKeepsInv` | src/hdr/MIME.cpp:1631-1636 | marking a detached field deleted keeps the invariant |
| `MimeRuns.CreateKeepsInv` | src/hdr/MIME.cpp:1351-1390 | creating a field keeps the invariant and changes no lookup |
| `MimeRuns.RemoveAllEffect` | src/hdr/MIME.cpp:1536-1576 | detaching or deleting a field with all its dups takes out exactly the live fields of that name from that slot on, and leaves every other field and all texts as they were |
| `MimeRuns.PrepareLeavesOne` | src/hdr/MIME.cpp:1592-1628 | preparing a field for a new value leaves exactly one live field of the name and every field of another name untouched |
| `MimeRuns.InitInv` | src/hdr/MIME.cpp:971-989 | an empty header satisfies the invariant |
| `MimeRuns.DupListIsScan` | src/hdr/MIME.cpp:1491-1546 | following dup pointers lists exactly the live fields of the name in slot order |
| `MimeRuns.EveryRunAgrees` | src/hdr/MIME.cpp:500-590 | after every run of create, attach (in slot order), detach, delete and prepare, lookup equals the plain scan, dup lists equal the scan's list, and the presence bits are the union of the live fields' masks |
| `MimeRuns.AttachBreaksOrder` | src/hdr/MIME.cpp:1440-1449 | four fields of one name attached in the order 0, 1, 3, 2 end up chained 0, 1, 3, 2 |
| `MimePlain.AttachEffect` | src/hdr/MIME.cpp:1392-1488 | in every branch, also out of slot order, attaching makes its own field live and changes no name, no value and no other readiness |
| `MimePlain.AttachGoesLast` | src/hdr/MIME.cpp:1440-1449 | attached out of slot order, a field becomes the last dup of its chain and nothing else moves |
| `MimePlain.RemovalEffect` | src/hdr/MIME.cpp:1491-1576 | detaching or deleting changes the readiness of the field, or of it and every later live field of its name, and nothing else a caller can see |
| `MimePlain.PrepareEffect` | src/hdr/MIME.cpp:1595-1628 | preparing keeps a lone field, and otherwise puts one empty live field in place of none or many |
| `MimePlain.StepIsPlain` | src/hdr/MIME.cpp:1351-1628 | every operation on the indexed store does to its rows of name, value and readiness what the plain operation does |
| `MimePlain.RunIsPlain` | src/hdr/MIME.cpp:500-590 | over every run the indexed store holds exactly the rows of a plain list put through the same operations, value for value, and its lookup finds the row a search of that list finds |
| `MimeHeader.FlatUpdate` | src/hdr/MIME.cpp:1578-1592 | slot 16 * block + index addresses exactly one field of the block list: updating it there updates it in the slot sequence and nothing else |
| `MimeHeader.MimeHdr.constructor` | src/hdr/MIME.cpp:971-989 | a new header is empty, with no presence bits and all accelerators unknown |
| `MimeHeader.MimeHdr.SearchBySlotNum` | src/hdr/MIME.cpp:1201-1226 | walking the blocks to a slot number finds that slot, or nothing when it lies beyond the last used one |
| `MimeHeader.MimeHdr.Search` | src/hdr/MIME.cpp:1155-1199 | the walk over all blocks and slots returns the first live field of the name |
| `MimeHeader.MimeHdr.FieldFind` | src/hdr/MIME.cpp:1229-1299 | the accelerated lookup on blocks returns the first live field of the name in slot order |
| `MimeHeader.MimeHdr.FieldCreate` | src/hdr/MIME.cpp:1351-1390 | a new detached row of that name and value is appended, in a new block when the last one is full |
| `MimeHeader.MimeHdr.SetAcceleratorsAndPresenceBits` | src/hdr/MIME.cpp:455-472 | the name's presence bit is set, its accelerator reads the slot, or 14 from slot 14 on, and no other changes |
| `MimeHeader.MimeHdr.UnsetAcceleratorsAndPresenceBits` | src/hdr/MIME.cpp:474-486 | the name's presence bit is cleared, its accelerator reads 14, and no other changes |
| `MimeHeader.MimeHdr.Walk` | src/hdr/MIME.cpp:1434-1452 | the insertion loop over dup pointers stops where the specification says |
| `MimeHeader.MimeHdr.FieldAttach` | src/hdr/MIME.cpp:1392-1488 | the field comes alive with its name and value, no other row changes, and the header stays valid if and only if the slot fits the chain |
| `MimeHeader.MimeHdr.FieldDetach` | src/hdr/MIME.cpp:1491-1546 | exactly the field, or it and every later live field of its name, leave the header, which stays valid |
| `MimeHeader.MimeHdr.FieldDelete` | src/hdr/MIME.cpp:1549-1576 | exactly the field, or it and every later live field of its name, are deleted, and the header stays valid |
| `MimeHeader.MimeHdr.PrepareForValueSet` | src/hdr/MIME.cpp:1595-1628 | one live field of the name is left, the old one or a new empty one, all other rows stay, and the header stays valid |
| `MimeCopy.CopySlots` | src/hdr/MIME.cpp:1032-1080 | a copied header has the same fields at the same slot numbers, dup pointers included once read as slot numbers, so lookup agrees slot for slot |
| `MimeCopy.CopyClosed` | src/hdr/MIME.cpp:1095-1126 | after the copy every dup pointer leads into the destination's blocks and none into the source's |
| `MimeCopy.BlockHdr.CopyOnto` | src/hdr/MIME.cpp:1032-1080 | copying onto another header gives an isomorphic valid header with its own blocks and tail, whatever the destination held before |
| `MimeCopy.Relocate` | src/hdr/MIME.cpp:1095-1116 | a pointer is rebased from the source block it lies in to the same slot of the corresponding destination block |
| `MimeCopy.ListAdjust` | src/hdr/MIME.cpp:1118-1126 | every dup pointer of every block is rebased |
| `MimeScanner.NextEventSplit` | src/hdr/MIME.cpp:2224-2362 | cutting the input anywhere and calling the scanner on both parts gives the result of one call on the whole |
| `MimeScanner.SlicesDoNotMatter` | src/hdr/MIME.cpp:2224-2362 | up to the end of the header the events and lines are those of the whole input, for every list of slices |
| `MimeScanner.TwoSlicings` | src/hdr/MIME.cpp:2224-2362 | two ways of slicing the same input give the same events, lines and final state |
| `MimeScanner.NextEventConserves` | src/hdr/MIME.cpp:2224-2362 | one call's line plus what stays pending is what was pending plus what was consumed, apart from the extra CR |
| `MimeScanner.FeedConserves` | src/hdr/MIME.cpp:2193-2362 | emitted lines and the pending buffer together are the consumed bytes plus one extra CR for each line that starts with a CR not followed by LF |
| `MimeScanner.Scanner.Get` | src/hdr/MIME.cpp:2224-2362 | the four-state scanner, with its line buffer and its search for line ends in whole stretches, returns what the character by character machine returns |
| `MimeLineLaws.FirstLine` | src/hdr/MIME.cpp:2224-2362 | in field mode fresh input gives the line up to its first line feed that no blank follows, continuation lines included, with one CR more if it starts with one; a first line of LF or CR LF ends the header; without an end everything stays pending |
| `MimeLineLaws.PlainLine` | src/hdr/MIME.cpp:2300-2330 | in line mode a line ends with its first line feed |
| `MimePrint.PieceOutConcat` | src/hdr/MIME.cpp:2628-2661 | printing two pieces through a window, the second only if the first was complete, is printing their concatenation |
| `MimePrint.FieldOutIsRendering` | src/hdr/MIME.cpp:2664-2720 | printing a field piece by piece through any window is printing its full line |
| `MimePrint.HdrOutIsSlice` | src/hdr/MIME.cpp:2568-2625 | with buffer length n and skip k exactly characters k to k + n of the full rendering are printed, and success is reported if and only if the end was reached |
| `MimePrint.WindowsCoverTheHeader` | src/hdr/MIME.cpp:2568-2661 | windows of any positive size, each resuming where the last one ended, put the whole rendering together |
| `MimePrint.LengthIsPrintedLength` | src/hdr/MIME.cpp:1128-1146 | the header length is the printed length if and only if no live field's name starts with '@' |
| `MimePrint.Printer.MemPrint` | src/hdr/MIME.cpp:2628-2661 | the in-place window printer does what the specification of a window says |
| `MimePrint.Printer.FieldPrint` | src/hdr/MIME.cpp:2664-2720 | the fast path that copies a whole field and the slow path print the same |
| `MimePrint.Printer.HdrPrint` | src/hdr/MIME.cpp:2568-2625 | the loop over fields prints the specified window of the header |
| `MimeParse.ParseUndoesPrint` | src/hdr/MIME.cpp:2389-2509 | parsing a printed header gives back the ordered list of names and values, for names that start with a token character and hold no colon, CR, LF or trailing space, and trimmed values whose every LF is followed by SP or HT (section 3.2.4 of RFC 7230) |
| `MimeParse.ParseUndoesPrintSliced` | src/hdr/MIME.cpp:2389-2509 | the same for every way of slicing the printed header over parser calls |
| `MimeParse.ParseSlicesIsWhole` | src/hdr/MIME.cpp:2389-2509 | parsing slice by slice gives the fields and the result of parsing the whole input at once |
| `MimeParse.EventsSplit` | src/hdr/MIME.cpp:2389-2509 | the parser's effect on a concatenation of scanner events is the effect on the parts, one after the other |
| `MimeParse.CallIsEvents` | src/hdr/MIME.cpp:2389-2509 | one parser call consumes exactly the scanner events of its input and adds the fields of their lines |
| `MimeParse.RenderedParses` | src/hdr/MIME.cpp:2430-2487 | a printed field line splits into exactly its name and value |
| `MimeLineLaws.LineTakenApart` | src/hdr/MIME.cpp:2430-2470 | for every name, value and amount of white space around them exactly that name and value come out of the line, unless one is too long |
| `MimeLineLaws.FieldLinesHaveLayout` | src/hdr/MIME.cpp:2430-2470 | every line taken for a field is name, blanks, colon, blanks, value, blanks and line breaks, with nothing lost |
| `MimeLineLaws.OtherLines` | src/hdr/MIME.cpp:2415-2450 | which lines end the header and which are tossed away |
| `MimeLineLaws.LineVerdicts` | src/hdr/MIME.cpp:2405-2507 | a tossed line leaves no trace, a field is added in its place, and nothing counts behind the end of the header or a line too long |
| `MimeParse.Parser.SplitLine` | src/hdr/MIME.cpp:2430-2487 | the pointer loops take a line apart as the specification does, which `MimeLineLaws` states for every amount of white space |
| `MimeParse.Parser.Parse` | src/hdr/MIME.cpp:2389-2509 | the parser loop over the scanner adds exactly the specified fields and returns the specified result |
| `ChunkedCoding.DecodeSplit` | src/http/HttpChunk.cpp:69-268 | decoding may be interrupted at any byte and resumed without a difference |
| `ChunkedCoding.DecodeSane` | src/http/HttpChunk.cpp:69-240 | 0 <= bytes_left <= cur_chunk_size in every reachable decoder state |
| `ChunkedCoding.DechunkUndoesChunk` | src/http/HttpChunk.cpp:244-332 | decoding what the encoder generates for any body delivered over any sequence of calls with any positive maximum chunk size below 2^31 gives the body back exactly and reaches CHUNK_READ_DONE with the final CRLF and not before (section 4.1 of RFC 7230) |
| `ChunkedCoding.DechunkAnySlicing` | src/http/HttpChunk.cpp:69-268 | the same for any slicing of the coded bytes |
| `ChunkedCoding.SlicesDoNotMatter` | src/http/HttpChunk.cpp:69-268 | the decoder's final state is that for the joined slices |
| `ChunkedCoding.ConstructorStateMisreads` | src/http/HttpChunk.cpp:12-31 | starting in the state the constructor sets instead of CHUNK_READ_SIZE, the decoder skips the first size line and takes the data for a size: an error for all data that do not start with a hexadecimal digit |
| `ChunkedGrammar.DigitsDecode` | src/http/HttpChunk.cpp:86-100 | digits of either case, with leading zeros, are read as their number in 32 bits |
| `ChunkedGrammar.SizeRejected` | src/http/HttpChunk.cpp:100-110 | a size is refused exactly when it has no digit or its number is negative as a 32-bit int, at the first character behind the digits |
| `ChunkedGrammar.SizeLineDecodes` | src/http/HttpChunk.cpp:84-122 | a size line ends with the first LF behind the character after its digits, whatever extension it holds |
| `ChunkedGrammar.PieceDecodes` | src/http/HttpChunk.cpp:69-195 | every chunk, whatever its case, leading zeros and extension, appends exactly its data |
| `ChunkedGrammar.TrailerDecodes` | src/http/HttpChunk.cpp:197-241 | trailer lines are skipped and the blank line, with or without CR, ends the decoding |
| `ChunkedGrammar.ChunkIsPiece` | src/http/HttpChunk.cpp:285-325 | a chunk is written as its size in lower-case digits without leading zeros, CR LF, its data, CR LF |
| `ChunkedGrammar.ChunksAreCut` | src/http/HttpChunk.cpp:285-325 | data is cut into chunks of the maximum size, the last one perhaps shorter and none empty |
| `ChunkedGrammar.MessageDecodes` | src/http/HttpChunk.cpp:69-268 | for every message of the grammar the decoder gives its data and is done exactly at the end of the blank line, not at any byte before (section 4.1 of RFC 7230) |
| `ChunkedHandler.Dechunker.ReadSizeLine` | src/http/HttpChunk.cpp:69-125 | reading a chunk size over blocks follows the byte machine and always makes progress |
| `ChunkedHandler.Dechunker.TransferBytes` | src/http/HttpChunk.cpp:134-176 | exactly the smaller of what is left of the chunk and what is there moves to the output, in order |
| `ChunkedHandler.Dechunker.ReadChunkData` | src/http/HttpChunk.cpp:178-195 | chunk data over blocks follows the byte machine |
| `ChunkedHandler.Dechunker.ReadTrailer` | src/http/HttpChunk.cpp:197-241 | the trailer over blocks follows the byte machine |
| `ChunkedHandler.Dechunker.ProcessChunkedContent` | src/http/HttpChunk.cpp:244-268 | one call ends in the decoder state, output and unread rest that decoding all available bytes gives, and returns true exactly when decoding has ended |
| `ChunkedHandler.Chunker.SetMaxChunkSize` | src/http/HttpChunk.cpp:62-67 | size 0 selects the default, and the prepared header matches the size |
| `ChunkedHandler.Chunker.GenerateChunkedContent` | src/http/HttpChunk.cpp:271-332 | one call turns everything readable into chunks of at most the maximum size and appends the last chunk when the server is done |
| `Calendar.DayNumberInjective` | src/hdr/MIME.cpp:2772-2836 | two valid Gregorian dates with the same day number are the same date |
| `Calendar.WeekdayByNumber` | src/hdr/MIME.cpp:2905-2912 | counting from Thursday, 1 January 1970, day by day, the weekday of a date is the one its day number gives |
| `MimeDate.MarchBaseStep` | src/hdr/MIME.cpp:2772-2836 | the closed formula for the day before 1 March advances by exactly the length of a year, leap rules included |
| `MimeDate.DayNumberFormula` | src/hdr/MIME.cpp:3136-3234 | the parser's formula for days since 1970 is the Gregorian day number of every valid date |
| `MimeDate.SlowDateExact` | src/hdr/MIME.cpp:2772-2836 | day to date conversion gives the exact Gregorian date if and only if the first guess of the year is below the target year |
| `MimeDate.LowUntil460995` | src/hdr/MIME.cpp:2772-2836 | the guess is low for every day number below 460995 and not for 460995, where day 0 of a month comes out |
| `MimeDate.RefineGuess` | src/hdr/MIME.cpp:2811-2819 | the refinement loop terminates at the specified year with its base day |
| `MimeDate.DaysToMdySlow` | src/hdr/MIME.cpp:2772-2836 | the conversion with its loop returns the specified date |
| `MimeDate.DateTable.constructor` | src/hdr/MIME.cpp:891-921 | the lookup table around today holds the exact date of each of its days |
| `MimeDate.DateTable.DaysToMdy` | src/hdr/MIME.cpp:2839-2867 | table lookup and slow conversion agree on every day |
| `MimeDateText.ParseText` | src/hdr/MIME.cpp:3136-3234 | the fixed-width parser reads back the six numbers of every date text of that form |
| `MimeDateText.ParseUndoesFormat` | src/hdr/MIME.cpp:3242-3342 | parsing a formatted time gives the time back for every t from 0 through the end of 2037, and INT_MAX for every later one (section 7.1.1.1 of RFC 7231) |
| `MimeDateText.NoOverflow` | src/hdr/MIME.cpp:3136-3234 | no intermediate value of the time computation leaves 32 bits up to the end of 2037 |
| `MimeDateText.ParseDate` | src/hdr/MIME.cpp:3242-3342 | the parser with its fast path for the fixed-width form returns the specified time |
| `MimeDateLaws.FormatSays` | src/hdr/MIME.cpp:2869-2999 | a formatted time says, in the fixed layout, the calendar date of its day, the weekday of that date, and the hours, minutes and seconds since its midnight |
| `MimeDateLaws.TextMeans` | src/hdr/MIME.cpp:3136-3342 | a date text of that layout means the seconds from 1970 to it whatever weekday it names, and the largest time after 2037 |
| `MimeDateLaws.FixedForm` | src/hdr/MIME.cpp:3136-3234 | a text with a comma in the fourth place is a date exactly when the names of a day and of a month stand in their places; without its colons the time is 0 |
| `MimeDateLaws.BlanksInFront` | src/hdr/MIME.cpp:3258-3262 | blanks in front of a date change nothing |
| `MimeDateLaws.FormatDate` | src/hdr/MIME.cpp:2869-2999 | exactly 29 characters and a NUL are written, and they say weekday, date and time of day of the value |
| `HdrSlots.StepKeepsInv` | src/hdr/HdrHeap.cpp:358-437 | every demote, coalesce, attach and lock, shorten and unlock, inherit or free keeps the used read-only slots a prefix apart from the one locked slot |
| `HdrSlots.LockedSlotStays` | src/hdr/HdrHeap.h:210-234 | a locked slot keeps its index and its heap through every step but its own unlocking |
| `HdrSlots.InheritNeverFails` | src/hdr/HdrHeap.cpp:1073-1166 | whenever no slot is locked the asserts of inherit_string_heaps hold: attaching never runs out of slots |
| `HdrSlots.EveryRun` | src/hdr/HdrTSOnly.cpp:63-84 | over whole runs: the used slots form a prefix whenever none is locked, inheriting then cannot fail, and inside a parse bracket the locked slot keeps index and contents |
| `HdrSlots.FreshInv` | src/hdr/HdrHeap.cpp:91-114 | a new heap starts in the invariant |
| `HdrSlots.AttachManyLongest` | src/hdr/HdrHeap.cpp:1030-1061 | attaching registers every heap, old and new alike, with its greatest length, and no other heap |
| `HdrStrings.StringsFit` | src/hdr/HdrHeap.cpp:392-437 | pairwise disjoint strings that lie in the attached heaps need no more room than the heaps together |
| `HdrStrings.MoveKeepsAll` | src/hdr/HdrHeap.h:407-415 | moving strings one after the other loses none if and only if their lengths together fit the new heap |
| `HdrStrings.MovedPlaces` | src/hdr/HdrHeap.h:407-415 | each string goes right behind the ones moved before it |
| `HdrStrings.MovedApart` | src/hdr/HdrHeap.h:407-415 | moved strings never overlap, whatever they did before |
| `HdrStrings.SharedStringsAreLost` | src/hdr/HdrHeap.h:407-415 | without disjointness the claim fails: two references to the same 3000 bytes cannot both be moved |
| `HdrStrings.NewHeapSizeIs` | src/hdr/HdrHeap.cpp:146-178 | a new string heap has the default size if that is enough, and otherwise the next multiple of twice that |
| `HdrHeap.RoomForAll` | src/hdr/HdrHeap.cpp:392-417 | the size coalescing asks for is enough for every string of the heap, including those of a heap that is being inherited |
| `HdrHeap.AttachManyCovers` | src/hdr/HdrHeap.cpp:1030-1061 | attaching heaps without failure leaves every old and every new heap covered by a slot at least as long |
| `HdrHeap.StringHeap.Evacuate` | src/hdr/HdrHeap.cpp:439-488 | every reference moves to the new heap; all read back byte for byte and none is NULL if and only if they fit |
| `HdrHeap.StringHeap.MoveStr` | src/hdr/HdrHeap.h:407-415 | one string is copied to the free space, or its reference becomes NULL when there is no room; nothing below the free space changes |
| `HdrHeap.StringHeap.CoalesceStrHeaps` | src/hdr/HdrHeap.cpp:392-437 | coalescing keeps every string byte for byte and loses none, also while a slot is locked, uses exactly their bytes of the new heap, and releases exactly the slots that are not locked |
| `HdrHeap.StringHeap.DemoteRwStrHeap` | src/hdr/HdrHeap.cpp:358-380 | the used part of the read/write heap moves to the first free slot, which fails exactly when there is none, and every string stays inside a heap |
| `HdrHeap.StringHeap.AllocateStr` | src/hdr/HdrHeap.cpp:257-316 | whenever some slot is not locked, allocation ends after at most three attempts with the bytes asked for, overlapping no string, and no string is lost or changed and no locked slot touched, through the lost-space, demote and coalesce paths; strings are moved only if they must be, a new heap is at least twice the demoted one, and lost space stays bounded |
| `HdrHeap.StringHeap.FreeString` | src/hdr/HdrHeap.h:302-308 | the string's bytes are counted as lost and all other strings stay valid |
| `HdrHeap.StringHeap.ExpandStr` | src/hdr/HdrHeap.cpp:326-335 | a string grows in place if and only if it is the last of the read/write heap and there is room, and never into another string |
| `HdrHeap.StringHeap.DuplicateStr` | src/hdr/HdrHeap.cpp:341-351 | the copy reads the same as the original did, even when the allocation moved every string, and all strings stay as they were |
| `HdrHeap.StringHeap.AttachBlock` | src/hdr/HdrTSOnly.cpp:161-199 | an input block gets the first slot that is free or already holds it, after a coalesce if there is none; the slot covers the block's used part, so that every string parsed from it lies in a heap, and all strings are kept |
| `HdrHeap.StringHeap.UnlockSlot` | src/hdr/HdrHeap.h:214-234 | the unlocked slot moves to the first free one below it, or stays, and no other slot changes |
| `HdrHeap.StringHeap.EndBracket` | src/hdr/HdrTSOnly.cpp:140-149 | the slot is cut where the parser stopped, unlocked and moved down, no other slot changes, and every string stays inside a heap |
| `HdrHeap.StringHeap.AttachStrHeap` | src/hdr/HdrHeap.cpp:1030-1061 | an attached heap is found again and extended, or takes the next slot, or fails when there is none |
| `HdrHeap.StringHeap.InheritStringHeaps` | src/hdr/HdrHeap.cpp:1073-1166 | in both branches the asserts hold, nothing is moved unless slots or lost space demand it, every heap is registered with its greatest length, and every string, including those that lie in the other header's heaps, stays readable byte for byte |
| `HdrXlate.Translate` | src/hdr/HdrHeap.h:327-345 | translation keeps NULL and only NULL at 0, provided the copies do not start at offset 0 |
| `HdrXlate.ExactIffSeparated` | src/hdr/HdrHeap.h:327-345 | the end-inclusive first-match test translates every address of disjoint heaps to its own copy if and only if no heap ends where a later one in the table starts, unless only empty heaps lie between them |
| `HdrXlate.GapsSeparate` | src/hdr/HdrHeap.h:327-345 | heaps at least one byte apart satisfy that condition |
| `HdrXlate.TranslatedText` | src/hdr/HdrHeap.cpp:733-781 | a string inside a heap reads the same bytes at its translated place in the copy |
| `HdrXlate.TouchingHeapsMisread` | src/hdr/HdrHeap.h:327-345 | two touching heaps with a third between them in the table: a string is read back from the third |
| `HdrMarshal.PtrSurvives` | src/hdr/HdrHeap.h:364-403 | after marshal and unmarshal a pointer denotes the same byte of the same object, and NULL stays NULL |
| `HdrMarshal.StrSurvives` | src/hdr/HdrHeap.h:327-403 | after marshal and unmarshal a string reference reads the same bytes, and NULL stays NULL |
| `HdrMarshal.BlockSurvives` | src/hdr/MIME.cpp:3484-3537 | live fields of a block keep name, value and dup pointer; all other fields are left exactly as they were |
| `HdrMarshal.RoundTrip` | src/hdr/HdrHeap.cpp:641-1028 | marshalling a well-formed header finds every pointer, and after unmarshalling the buffer at any address every live URL and field string reads the same and every block, dup and tail pointer denotes the same object |
| `HdrBuffer.MarshalLength` | src/hdr/HdrHeap.cpp:573-606 | the loops add up the heap header, all objects and all string heaps without their headers, rounded up |
| `HdrBuffer.LengthIs` | src/hdr/HdrHeap.cpp:573-606 | the length is the next multiple of eight |
| `HdrBuffer.MarshalLengthSuffices` | src/hdr/HdrHeap.cpp:573-606 | marshalling a well-formed header into marshal_length() bytes cannot fail, and unmarshalling accepts that many |
| `HdrBuffer.Lookup` | src/hdr/HdrHeap.h:327-345 | the table loop finds the first matching row and translates by its offset |
| `HdrBuffer.MarshalField` | src/hdr/MIME.cpp:3484-3516 | the short lookup for single-row tables and the general one give the same fields |
| `HdrBuffer.MarshalBlock` | src/hdr/MIME.cpp:3484-3516 | a block is translated whole, or fails exactly when a live pointer leads nowhere |
| `HdrBuffer.MarshalUrl` | src/hdr/URL.cpp:305-319 | all nine URL strings are translated, or it fails exactly when one leads nowhere |
| `HdrBuffer.CopyStrHeaps` | src/hdr/HdrHeap.cpp:733-781 | the string heaps are copied one behind the other with a matching table, exactly when they fit |
| `HdrBuffer.Marshal` | src/hdr/HdrHeap.cpp:641-856 | marshal returns -1 exactly when the copies do not fit the length or a live pointer leads nowhere, and otherwise uses exactly marshal_length() bytes |
| `HdrBuffer.UnmarshalBlock` | src/hdr/MIME.cpp:3518-3537 | the offsets of the live fields of a block become pointers |
| `HdrBuffer.Unmarshal` | src/hdr/HdrHeap.cpp:911-1028 | unmarshal fails exactly for a truncated buffer or one that holds a raw object, and otherwise makes the specified header |
| `HdrBuffer.MarshalsAgain` | src/hdr/HdrHeap.cpp:641-1028 | a header unmarshalled at any address marshals to the very same buffer |
| `GatherWrite.Consume` | src/core/Connector.cpp:355-360 | consuming n bytes drops exactly the first n unread bytes of the block chain |
| `GatherWrite.RestIsFlat` | src/core/Connector.cpp:543-560 | what is left of a block chain behind an offset is the joined blocks without the first bytes |
| `GatherWrite.Gather` | src/core/Connector.cpp:551-588 | one round gathers exactly the next bytes of the chain in at most UIO_MAXIOV pieces, fewer than wanted only when the pieces ran out, and some whenever some are wanted |
| `GatherWrite.LoadBufferAndWrite` | src/core/Connector.cpp:541-600 | for any socket the rounds end; each offers the bytes behind the last, all but the last were taken whole, they go on until everything wanted was offered or a round was not taken whole, and the bytes taken are a prefix |
| `GatherWrite.SummaryIsTaken` | src/core/Connector.cpp:314-328 | the summarized result equals the bytes taken when it is positive, and nothing was taken when it is not |
| `GatherWrite.Connector.HandleOutput` | src/core/Connector.cpp:259-400 | over any run and any socket behaviour the accepted bytes are a prefix of the queued bytes, grow by exactly a positive result, and ndone counts them and never passes nbytes; if there is anything to write, all of it up to what is left to do is offered, and the result is the bytes taken or the socket's last answer |
| `UrlParse.ParseScheme` | src/hdr/URL.cpp:1052-1093 | the scheme and the place where the rest starts, special case included |
| `UrlParse.PortNumber` | src/hdr/URL.cpp:433-450 | the sixteen-bit value of the leading digits |
| `UrlParse.ScanAuthority` | src/hdr/URL.cpp:1125-1213 | the loop over the authority ends in the state of the step machine, or fails exactly when it does |
| `UrlParse.PickUp` | src/hdr/URL.cpp:1214-1242 | user, password, host and port are picked up as specified; a colon without a port is an error |
| `UrlParse.ParseTail` | src/hdr/URL.cpp:1248-1347 | path, parameters, query and fragment are cut at the first mark that may end each |
| `UrlParse.ParseUrl` | src/hdr/URL.cpp:1095-1100 | the whole parser returns the specified URL or error |
| `UrlPrint.PrintUrl` | src/hdr/URL.cpp:1419-1492 | printing through any window prints that window of the full text of the URL |
| `UrlPrint.LengthIsPrinted` | src/hdr/URL.cpp:755-794 | url_length_get equals the printed length if and only if the characters it leaves out (slashes of a file URL, added brackets) are as many as the marks it counts for empty components |
| `UrlPrint.AuthorityParses` | src/hdr/URL.cpp:1125-1242 | the printed user, password, host and port parse back to themselves, for a host that is colon-free or bracketed with fewer than eight colons |
| `UrlPrint.TailParses` | src/hdr/URL.cpp:1248-1347 | the printed path, parameters, query and fragment parse back to themselves |
| `UrlPrint.ParseUndoesPrint` | src/hdr/URL.cpp:1095-1492 | parsing a printed URL gives the URL back, for every URL with a scheme and components that are absent or not empty and hold none of the marks that would end them (section 3 of RFC 3986) |
| `UrlLaws.ParseNormalizes` | src/hdr/URL.cpp:1095-1492 | parsing a printed URL gives its normal form: an address put in brackets, no empty parameters, query or fragment, no port zero |
| `UrlLaws.SchemeBeforeColon` | src/hdr/URL.cpp:1052-1093 | text before the first colon is a scheme if it is a known one or if a slash or nothing comes behind the colon, and otherwise stays for the authority |
| `UrlLaws.NoScheme` | src/hdr/URL.cpp:1052-1093 | without a colon, or with a slash in front, there is no scheme |
| `UrlLaws.BlankIsNoUrl` | src/hdr/URL.cpp:1052-1093 | nothing but spaces is an error |
| `UrlLaws.LeadIs` | src/hdr/URL.cpp:1138-1145 | one colon and up to two slashes are skipped, and something must come behind them |
| `UrlLaws.BareAuthority` | src/hdr/URL.cpp:1147-1242 | for every text without brackets and at-signs: it is the host, or host and port at its last colon if it holds one or eight, an error with an empty port or more than eight |
| `UrlLaws.EmptyUser` | src/hdr/URL.cpp:1186-1199 | an empty user is dropped |
| `UrlLaws.Rejected` | src/hdr/URL.cpp:1152-1206 | a second user, a bracket opened late and a bracket never opened are errors |
| `UrlLaws.RejectedAddress` | src/hdr/URL.cpp:1152-1180 | an address in brackets with eight colons or more, or with anything but a slash, a colon or the end behind it, is an error |
| `UrlLaws.TailIs` | src/hdr/URL.cpp:1248-1347 | for every text the components behind the authority are cut at their marks, and empty ones are kept apart from absent ones |
| `UrlLaws.PortIs` | src/hdr/URL.cpp:433-450 | the port number is the number its leading digits spell, in sixteen bits |
| `UrlDigest.CallIsLoop` | src/hdr/URL.cpp:888-955 | copying ahead to the next '%' does what the escape machine alone does, unless the call starts owing a digit before another character |
| `UrlDigest.FlushesDoNotMatter` | src/hdr/URL.cpp:1631-1652 | without a broken escape the bytes of a component do not depend on where the 512-byte buffer is flushed |
| `UrlDigest.FlushAtBroken` | src/hdr/URL.cpp:888-955 | a flush exactly at an escape that lacks its second digit changes the bytes |
| `UrlDigest.SameForEveryFillIff` | src/hdr/URL.cpp:888-1010 | the bytes of a component are the same for every fill of the buffer if and only if it holds no broken escape |
| `UrlDigest.ValidIsDecoded` | src/hdr/URL.cpp:888-1010 | when every '%' begins a valid escape there is no broken one and the bytes are the decoded text |
| `UrlDigest.RunIsMeaning` | src/hdr/URL.cpp:888-1010 | every text is unescaped to its meaning: valid escapes to their byte, of either case; a % without two digits stays; an escape cut off by the end is dropped |
| `UrlDigest.BrokenEscapeExample` | src/hdr/URL.cpp:888-955 | one free byte in the buffer and the text %az: the digit is lost |
| `UrlDigestStream.FastIsGeneral` | src/hdr/URL.cpp:1546-1583 | under its guard the fast path feeds the stream of the general path, provided the scheme holds no '%' |
| `UrlDigestStream.CanonicalIs` | src/hdr/URL.cpp:1585-1652 | the stream is scheme, user, password, host, path, parameters and query, each with its mark, scheme and host in lower case |
| `UrlDigestStream.PortBytesAre` | src/hdr/URL.cpp:1655-1657 | the last two bytes are the port, 443 or 80 when it is missing |
| `UrlDigestStream.Digester.Unescape` | src/hdr/URL.cpp:888-1010 | one call writes the specified characters into the buffer and stops where specified |
| `UrlDigestStream.Digester.AddComponent` | src/hdr/URL.cpp:1631-1652 | a component adds the specified bytes to what was fed and what waits in the buffer |
| `UrlDigestStream.Digester.General` | src/hdr/URL.cpp:1585-1659 | the general path feeds the canonical stream and the port when no component copied ahead holds a broken escape |
| `UrlDigestStream.Digester.Fast` | src/hdr/URL.cpp:1546-1583 | the fast path never overruns its 512-byte buffer and feeds its text and the port |
| `UrlDigestStream.Digester.UrlDigest` | src/hdr/URL.cpp:1664-1686 | whichever path is chosen the digest gets the same bytes |
| `CommaList.TokensAreWellSplit` | src/http/HttpCompat.cpp:53-182 | whatever the value, its tokens are trimmed, quote their commas and, but for the last, close their quotes |
| `CommaList.BalancedTokens` | src/http/HttpCompat.cpp:53-182 | a value with balanced quotes has balanced tokens only |
| `CommaList.JoinParsesIff` | src/hdr/MIME.cpp:1758-1797 | a list of tokens survives being joined and ripped apart again if and only if it is not empty and well split, empty tokens included (section 7 of RFC 7230) |
| `CommaList.SpelledParses` | src/http/HttpCompat.cpp:53-182 | a list is read as its tokens whatever blanks are written around them |
| `CommaList.TokenEndsOutside` | src/http/HttpCompat.cpp:103-130 | a token ends at the first comma with an even number of quotes before it |
| `CommaList.InsideIsOdd` | src/http/HttpCompat.cpp:116-130 | a place is inside quotes when an odd number of quotes stands before it |
| `CommaList.SetThenParse` | src/hdr/MIME.cpp:1800-1828 | for every value, setting a token and re-parsing gives the old list with that token replaced if and only if the new one is trimmed, quotes its commas and, unless last, closes its quotes |
| `CommaList.DeleteThenParse` | src/hdr/MIME.cpp:1831-1873 | for every value and token, deleting and re-parsing gives the old list without that token |
| `CommaList.InsertThenParse` | src/hdr/MIME.cpp:1876-1911 | for every value, inserting and re-parsing gives the old list with the token inserted if and only if the token may stand there and does not follow an open quote |
| `CommaList.EditsOutOfRange` | src/hdr/MIME.cpp:1800-1911 | an index out of range changes nothing, and a negative one inserts at the end |
| `CommaList.BalancedEdits` | src/hdr/MIME.cpp:1800-1911 | for balanced values and balanced pieces every edit is exact |
| `CommaField.ParseTokList` | src/http/HttpCompat.cpp:53-182 | the scanning loops return the specified tokens, and with quote trimming the same tokens without their surrounding quotes |
| `CommaField.UnquotedIs` | src/http/HttpCompat.cpp:116-147 | trimming takes the two outer quotes and nothing else |
| `CommaField.StrFromList` | src/hdr/MIME.cpp:1758-1797 | the joined text, and the length computed beforehand is its length |
| `CommaField.Field.SetCommaVal` | src/hdr/MIME.cpp:1800-1828 | the value becomes the specified one, unchanged for an index out of range, and is no longer raw printable when it changed |
| `CommaField.Field.DeleteCommaVal` | src/hdr/MIME.cpp:1831-1873 | the value becomes the specified one, NULL when the last token went |
| `CommaField.Field.InsertCommaVal` | src/hdr/MIME.cpp:1876-1911 | the value becomes the specified one; a negative index means the end |
| `Base64.DecodeUndoesEncode` | src/core/StringUtils.cpp:1058-1196 | decoding undoes encoding on every byte string (section 4 of RFC 4648) |
| `Base64.LettersDecode` | src/core/StringUtils.cpp:1058-1196 | the code letters are all valid, none is padding, and they decode group by group to the bytes |
| `Base64.EncodedLength` | src/core/StringUtils.cpp:1058-1095 | the encoding has four letters for every three bytes or part of them |
| `Base64.SameBitsBack` | src/core/StringUtils.cpp:1173-1192 | four six-bit values and the three bytes they decode to are the same 24 bits |
| `Base64.DecodesIff` | src/core/StringUtils.cpp:1153-1172 | what stands before the first padding sign decodes if and only if it is all letters and not one more than a multiple of four; what stands behind does not count |
| `Base64.SameBits` | src/core/StringUtils.cpp:1058-1095 | three bytes and the four six-bit values of their letters are the same 24 bits |
| `Base64.LettersAreAlphabet` | src/core/StringUtils.cpp:1058-1095 | the letters are those of the alphabet, in order |
| `Base64.ValuesAreAlphabet` | src/core/StringUtils.cpp:1098-1150 | a character has a value exactly if it is a letter of its alphabet, and then that of the letter, in both tables |
| `Base64.UrlDecodeUndoesEncode` | src/core/StringUtils.cpp:1125-1196 | the decoder for URLs undoes the encoder with plus and slash replaced, padded or not |
| `Base64.EncodeBase64` | src/core/StringUtils.cpp:1058-1095 | the encoding loop and its tail produce the specified letters and padding |
| `Base64.DecodeBase64` | src/core/StringUtils.cpp:1153-1196 | decoding fails exactly for an invalid letter before the padding or a length that is 1 modulo 4, and otherwise produces the specified bytes |
| `UriEscape.TablesEscapePercent` | src/core/StringUtils.cpp:1338-1471 | every escape table but the one for refresh headers escapes '%' |
| `UriEscape.UnescapeUndoesEscapeIff` | src/core/StringUtils.cpp:1338-1634 | plain unescaping undoes escaping on every byte string if and only if the table escapes '%' |
| `UriEscape.NoPercentComesBack` | src/core/StringUtils.cpp:1338-1634 | with any table a text without '%' comes back |
| `UriEscape.EscapedLength` | src/core/StringUtils.cpp:1473-1504 | the escaped length is the size plus twice the number of counted escapes |
| `UriEscape.UriByCharacters` | src/core/StringUtils.cpp:1346-1362 | which characters the table for URIs escapes |
| `UriEscape.ArgsByCharacters` | src/core/StringUtils.cpp:1364-1382 | which characters the table for arguments escapes |
| `UriEscape.ComponentByCharacters` | src/core/StringUtils.cpp:1384-1402 | the table for components escapes all but letters, digits and four marks |
| `UriEscape.OthersByCharacters` | src/core/StringUtils.cpp:1404-1462 | which characters the tables for HTML, refresh headers and memcached escape |
| `UriEscape.DigitsByPlace` | src/core/StringUtils.cpp:1530-1560 | escapes are written with lower-case digits, and digits of either case have the value of their place |
| `UriEscape.UnescapeIsMeaning` | src/core/StringUtils.cpp:1507-1634 | in all three modes every text is unescaped to its meaning, including broken escapes, the stop at a question mark and the escapes a redirect keeps |
| `UriEscape.CountEscapes` | src/core/StringUtils.cpp:1473-1488 | the counting loop |
| `UriEscape.EscapeUri` | src/core/StringUtils.cpp:1490-1504 | the escaping loop writes the specified bytes |
| `UriEscape.UnescapeUri` | src/core/StringUtils.cpp:1507-1634 | the unescaping machine, in all three modes, produces the specified bytes |

## Left out

- Scanner and parser with eof true, and the scanner's state after PARSE_DONE: slice independence does not hold there.
- Cooked values (cache-control and the like), which attach, detach and the comma edits recompute.
- The raw-printable flag as reset by string evacuation; the objects of a heap are taken as the list of their string references there.
- Reference counts of string heaps: memory in the model is never freed, so lifetime is not modelled.
- The asserts about reference pointers in `attach_str_heap`, for the same reason.
- HTTP header objects (`HTTPHdrImpl`) in heaps and buffers, checksums of buffers, `check_marshalled`, and which object `unmarshal` reports as found.
- The cached printed URL, which the source neither moves nor marshals.
- Sizes of the heap headers: 32 bytes for a string heap and 136 for a header heap stand for one 64-bit layout; only that they are positive is used.
- HdrBuffer.Marshal: objects have positive length, as the object allocator makes them; the branch that fails on an empty or raw object of length 0 is not modelled. The length checks compare the copies alone with the buffer length, as the source does.
- HdrMarshal.RoundTrip: string heaps do not overlap and none ends where a later one in the table starts, because the range test includes the end; `HdrXlate.ExactIffSeparated` shows that this is exactly what is needed.
- HdrSlots.EveryRun: at most one slot is locked at a time and nothing is inherited inside a parse bracket, as in the callers.
- HdrHeap.StringHeap.AttachBlock: the end of an input block never moves back, since input buffers are written once.
- HdrHeap.StringHeap.AllocateStr: 32-bit overflow of heap sizes is not modelled.
- MimeDate.DateTable.constructor: the clock is a parameter, and today lies at least a year after 1970 and a year before day 460995.
- MimeDateLaws.FormatDate: values are not negative and lie before day 460995, the first that the conversion gets wrong.
- MimeDateText.ParseDate: only the fixed-width form is parsed; asctime, RFC 850 and NNTP dates depend on a matcher that is not part of this model.
- MimeParse.ParseUndoesPrint: names and values are shorter than the 16-bit length limit of the parser.
- ChunkedGrammar.SizeLineDecodes: overflow of the running size, undefined for a C int, is taken as wrap-around.
- ChunkedHandler.Dechunker.ProcessChunkedContent: chunked passthrough without an output buffer is left out; a chunk header is hexadecimal digits followed by CRLF.
- ChunkedCoding.ConstructorStateMisreads: stated for a first chunk whose data do not start with a hexadecimal digit.
- GatherWrite.Connector.HandleOutput: events sent to the user, rescheduling and the user changing nbytes in the middle of a call are left out; the user may append data.
- UrlPrint.ParseUndoesPrint: the conditions are sufficient, not necessary: some odd hosts and users outside them, such as an unclosed bracket or several colons behind the fifth character, also come back; texts of 64 kB and more, which exceed the source's 16-bit lengths, are not distinguished.
- UrlParse.ParseUrl: the place where parsing stopped is not returned, and a URL that was partly filled before an error is not described.
- UrlDigestStream.Digester.General: the two port bytes are taken low byte first.
- UriEscape.UnescapeUndoesEscapeIff: stated for type 0; the other two modes stop at '?' or keep escapes by design, and are stated by `UriEscape.UnescapeIsMeaning`.
- `url_parse_no_path_component_breakdown`, `url_to_string` and `mime_field_value_extend_comma_val`: further entry points of the same kind.
- HTTP request and response lines, quality values, the token hash table, MD5, allocators, debug output.
- `Connector::handle_input`, acceptors, configuration, cache and session state machines.
