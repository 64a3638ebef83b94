# Verified models of parts of the Haxe compiler and standard library

This project models, in Dafny, the parts of the Haxe repository that do real work on memory and text,
and proves what they promise. Each module is named after the code it models; line references are to
the repository's files.

- **The heap sizer** (`libs/objsize`). `BitArray` is the bit store, `ColorCodec` and `ColorStream` the
  run-length code in which header colours are saved, `HeaderWord` the header macros, `HeapGraph` a
  plain depth-first walk with its meaning as reachability, and `Objsize` the two recursions that paint
  and restore the heap. The main result is `Objsize.Sizer.CObjsize`.
- **The XML parser** (`std/cpp/NativeXmlImport.cpp`). `XmlMachine` is one round of its loop,
  `XmlParser` the runs and the imperative loop, `XmlBalance` and `XmlSafety` what every run keeps,
  `XmlDocument` a document with its layouts and callbacks, `XmlLeads` and `XmlPrints` the proof that every
  layout is read as its document, `XmlMistakes` the ways in which a text can go wrong, `XmlErrors` the proof
  that each raises its exception, `XmlReads` that every run reads a layout, comes to a mistake or ends too
  early, and `XmlRoundTrip` what follows: for every text, whether it is accepted and with which callbacks, or
  which exception is thrown.
- **Windows command lines** (`libs/extc/process_stubs.c`). `ChunkBuffer` is the growing buffer,
  `WindowsCommandLine` the quoting loop and the reader of the Microsoft C run time.
- **Text.** `HtmlText` (`std/StringTools.hx`), `Utf16`, `UnicodeString` and `UnicodeSearch`
  (`std/UnicodeString.hx`), `Utf8` (the validator of the same file and `std/php/_polyfills.php`).
- **Containers and codec** (`libs/extlib-leftovers`). `MultiArray`, `Rbuffer`, and `Base64` with
  `Base64Format`, `Base64Bits` and `Base64Accumulator`.
- `Optional` holds the one datatype several of them share.

Code that works by changing state is modelled by classes, arrays and loops, proved against functions on
values; the properties are then lemmas about those functions.

`dafny verify dfyconfig.toml` checks the whole project.

## Where the code and its documentation part

The models follow the code. These are the places where it does not do what its own documentation or
name says, each with the exact condition:

- `indexOf` promises the leftmost occurrence. On a mismatch it restarts at the current code point
  without backing up, so it misses occurrences that overlap a failed match, and it never finds the
  empty needle (`UnicodeSearch.RightIffRestartable`; "aab" in "aaab" in `AabIsMissed`).
- `MultiArray` loops over chunks stop `len land mask` elements into the last chunk, which is none of
  them when the length is a multiple of 1024 (`MultiArray.VisitsAllIff`, `FoldLeft`, `Map`, `Init`; a
  concrete run in `CountsTooFew`).
- `mb_chr` and `mb_ord` are inverse only where `mb_chr` does not reduce its argument
  (`Utf8.MbOrdInvertsMbChr`).
- A command that holds a quote is not escaped, unlike the arguments, and a NUL anywhere cuts the line
  (`WindowsCommandLine.CommandLineRoundTrip`, `CutAtNul`).
- A Base64 table with a repeated character is accepted and then misread (`Base64.RoundTripIffDistinct`,
  `RepeatIsMisread`).
- `wordalign` does not align (`BitArray.WordAlignNeverAligns`); that it never shrinks a request is
  enough for the bit store.
- The XML parser calls `done` for self-closed elements only, not for every element that is closed
  (`XmlBalance.UndoneAreOpened`, `XmlRoundTrip.ClosedNotDone`).
- It also takes text that begins with the bytes of a byte order mark for one (`XmlRoundTrip.RoundTrip`,
  `MarkIsTaken`).

## Model

| member | source | states |
|---|---|---|
| BitArray.WordAlignNeverAligns | libs/objsize/bitarray.h:20-32 | `wordalign` never answers less than it is asked for, but it aligns nothing: it changes only a request of 3, and answers a multiple of the word size only when asked for one |
| BitArray.MaskedWrite | libs/objsize/bitarray.h:59-79 | setting or clearing through the mask of index i changes the bit of i in its byte and no other |
| BitArray.MaskIsPower | libs/objsize/bitarray.h:59-60 | bit i of a byte is the one of weight 2^(i mod 8) |
| BitArray.Get | libs/objsize/bitarray.h:62-65 | reads the bit of the index, in bounds |
| BitArray.Set | libs/objsize/bitarray.h:67-79 | afterwards every index reads as before, except the one written |
| BitArray.Realloc | libs/objsize/bitarray.h:53-56 | a store of the new size with the old bytes first, as far as there is room |
| ColorCodec.IntRoundTrip | libs/objsize/c_objsize.c:143-167 | the bits of an integer, least significant first, spell that integer |
| ColorCodec.IntBitsAt | libs/objsize/c_objsize.c:143-152 | bit k of an integer is its quotient by 2^k, taken modulo 2 |
| ColorCodec.CodeWords | libs/objsize/c_objsize.c:179-250 | the bits of three code words, written out |
| ColorCodec.OrderFor | libs/objsize/c_objsize.c:183-188 | the order of an escape is the largest power of two not above the count, capped at 2^15 |
| ColorCodec.RunTokensMeaning | libs/objsize/c_objsize.c:179-208 | the code words written for a pending run are legal and stand for exactly that many repeats, without changing the colour that later repeats refer to |
| ColorCodec.DecodeInvertsStream | libs/objsize/c_objsize.c:179-280 | decoding the bits of any sequence of code words gives the colours they stand for: the code is uniquely readable |
| ColorCodec.EightBitsPerColor | libs/objsize/c_objsize.c:179-250 | no sequence of code words takes more than 8 bits for each colour it stands for |
| ColorCodec.RunCost | libs/objsize/c_objsize.c:179-208 | a run below 2^k repeats, 5 <= k <= 16, takes at most 7(k-5)+8 bits: 85 below 2^16 |
| ColorStream.Stream.constructor | libs/objsize/c_objsize.c:98-106 | an empty store with nothing written |
| ColorStream.Stream.WriteBit | libs/objsize/c_objsize.c:117-130 | appends one bit, through any number of doublings, all accesses in bounds |
| ColorStream.Stream.Grow | libs/objsize/c_objsize.c:119-126 | doubles the capacity and keeps every bit written |
| ColorStream.Stream.ReadBit | libs/objsize/c_objsize.c:133-140 | the next bit written, in bounds |
| ColorStream.Stream.WriteInt | libs/objsize/c_objsize.c:143-152 | appends the bits of an integer, least significant first; nothing of it is left over |
| ColorStream.Stream.ReadInt | libs/objsize/c_objsize.c:155-167 | takes the bits of one integer and answers it |
| ColorStream.Stream.LargestOrder | libs/objsize/c_objsize.c:183-188 | the loop stops at the largest order that fits |
| ColorStream.Stream.WriteRepeats | libs/objsize/c_objsize.c:179-208 | writes the pending run as code words and ends with none pending |
| ColorStream.Stream.WriteFlush | libs/objsize/c_objsize.c:211-219 | ends with nothing pending and the same colours written |
| ColorStream.Stream.WriteColor | libs/objsize/c_objsize.c:237-250 | one more colour is written, pending or not |
| ColorStream.Stream.StoreBound | libs/objsize/c_objsize.c:179-250 | the store never holds more than 8 bits for each colour written |
| ColorStream.Stream.StartReading | libs/objsize/c_objsize.c:283-288 | after a flush the reader has exactly the written colours before it |
| ColorStream.Stream.ReadRun | libs/objsize/c_objsize.c:263-271 | an escape gives the length of a run that is never empty, for whatever colour it repeats |
| ColorStream.Stream.ReadColor | libs/objsize/c_objsize.c:253-280 | answers the first of the remaining colours, never blue; the one recursive call ends |
| ColorStream.Stream.ReadFlush | libs/objsize/c_objsize.c:222-234 | when all colours are read no repeat is pending and the read index is the write index |
| HeaderWord.ColoredHdRecolors | libs/objsize/c_objsize.c:21-32 | on a 64-bit header word the colouring macro changes the colour field and neither tag nor size |
| HeaderWord.RepaintRestores | libs/objsize/c_objsize.c:26-32 | painting with the colour read before another colour was painted restores the word bit for bit |
| HeaderWord.WordOfString | libs/objsize/c_objsize.c:21-27 | a concrete header word, its fields and its repainting |
| HeaderWord.FieldsOfColored | libs/objsize/c_objsize.c:26-32 | colour, size and tag read from a painted word |
| HeapGraph.WalkIsFresh | libs/objsize/c_objsize.c:325-393 | a depth-first walk visits no block twice and none that was seen before |
| HeapGraph.ChildrenAreFields | libs/objsize/c_objsize.c:331-344 | the children followed are the block fields of a scannable block, all of them, from left to right |
| HeapGraph.ChildIffPoints | libs/objsize/c_objsize.c:331-344 | c is a child of b exactly if some field of b points to c |
| HeapGraph.WalkCovers | libs/objsize/c_objsize.c:325-393 | every block a walk starts from is seen at its end |
| HeapGraph.WalkIsClosed | libs/objsize/c_objsize.c:325-393 | every child of a visited block that is scanned is seen at the end |
| HeapGraph.VisitsHavePaths | libs/objsize/c_objsize.c:325-393 | every visit is reached by a path of as many steps as its depth says, avoiding what was seen |
| HeapGraph.PathsStayInside | libs/objsize/c_objsize.c:325-393 | a path that starts at a visited block and avoids what was seen before ends at a visited block |
| HeapGraph.WalkIsReach | libs/objsize/c_objsize.c:325-393 | a walk visits exactly the blocks that some path reaches: reachability, on cyclic and shared graphs |
| HeapGraph.CountBlocks | libs/objsize/c_objsize.c:369 | the number of visits is the number of blocks visited |
| HeapGraph.WordsAreWeight | libs/objsize/c_objsize.c:368 | the words counted visit by visit are the total size of the set visited |
| HeapGraph.DepthBelowCount | libs/objsize/c_objsize.c:370 | every visit is less deep than there are visits, counted from the depth of the start |
| HeapGraph.DeepestIsMaximum | libs/objsize/c_objsize.c:370 | the running depth is the maximum over the visits |
| Objsize.SplitHead | libs/objsize/c_objsize.c:325-349 | a walk that is part-way through its blocks goes on with the walk of the next one, or skips it if it was seen in the meantime |
| Objsize.BlueIffSeen | libs/objsize/c_objsize.c:318-321 | on the way in a header is blue exactly if its block was seen |
| Objsize.BlueIffUnrestored | libs/objsize/c_objsize.c:318-323 | on the way out a header is blue exactly if its block is still to be visited: the opposite test chooses the same blocks |
| Objsize.Sizer.EnterBlock | libs/objsize/c_objsize.c:364-378 | one visit: counters, colour written, header painted |
| Objsize.Sizer.ScanEntering | libs/objsize/c_objsize.c:325-349 | the deferred-last-child loop makes the visits of a plain left-to-right walk, up to the child it leaves to the jump |
| Objsize.Sizer.RecObjsize | libs/objsize/c_objsize.c:352-393 | the recursion with its jump makes exactly the visits of the plain depth-first walk; it ends because unvisited blocks run out |
| Objsize.Sizer.LeaveBlock | libs/objsize/c_objsize.c:402-404 | one visit: the next colour read is that of this block, and its header is as it was |
| Objsize.Sizer.ScanLeaving | libs/objsize/c_objsize.c:325-349 | the same loop with the opposite test leaves the same visits in the same order |
| Objsize.Sizer.RestoreColors | libs/objsize/c_objsize.c:396-420 | the second recursion makes the visits of the same walk and takes their colours off the stream |
| Objsize.Sizer.PaintScan | libs/objsize/c_objsize.c:435-444 | paints the scan list, an element that comes twice once |
| Objsize.Sizer.RestoreScan | libs/objsize/c_objsize.c:463-471 | restores the scan list in the order it was painted |
| Objsize.Sizer.AnyBlue | libs/objsize/c_objsize.c:473-480 | answers whether any element of the reach list is blue |
| Objsize.Sizer.FirstPass | libs/objsize/c_objsize.c:435-457 | exactly the scan list and what is reachable is painted, the stream holds their colours, the counters their tally |
| Objsize.Sizer.SecondPass | libs/objsize/c_objsize.c:461-486 | all headers are as they were, the stream is used up, and the reach list was tested before anything reachable was restored |
| Objsize.MeasuredIsReached | libs/objsize/c_objsize.c:446-456 | counters and set reachable from the value avoiding the scan list: cardinality and total words |
| Objsize.DepthIsReached | libs/objsize/c_objsize.c:370 | the depth is attained by a visit and exceeded by none |
| Objsize.DepthMeaning | libs/objsize/c_objsize.c:370-387 | the depth is below the count and is the length of a path to some block |
| Objsize.ListCells | libs/objsize/c_objsize.c:435-444 | the blocks of an OCaml list are the heads of its cells, reached by following second fields |
| Objsize.SharedPair | libs/objsize/c_objsize.c:423-503 | a concrete pair of two values where the second points to the first: headers, data and depth |
| Objsize.Sizer.CObjsize | libs/objsize/c_objsize.c:423-503 | for every heap, value and lists with no blue block in the scan list or reachable: all headers end as they began, the counters are those of the reachable set, the depth is below the count, and `reached` says exactly whether a reach element is in that set (or was blue from the start) |
| XmlMachine.ActProgress | std/cpp/NativeXmlImport.cpp:101-336 | on every input and in every state one round reads no byte behind the terminator, keeps its registers in the buffer and lowers remaining input or state rank |
| XmlParser.Session.DoParseXml | std/cpp/NativeXmlImport.cpp:89-347 | the loop with its recursive calls computes the run of the state machine, events, line and hand-back position included, and terminates |
| XmlParser.Session.Finish | std/cpp/NativeXmlImport.cpp:337-346 | what follows the loop: closing text or an unexpected end |
| XmlParser.ParseXmlText | std/cpp/NativeXmlImport.cpp:376-384 | the entry point computes the run from behind a byte order mark |
| XmlSafety.RunCountsLines | std/cpp/NativeXmlImport.cpp:97-336 | across recursion the line is the number of newlines after the first parsed character up to and including the current one |
| XmlSafety.ParseCountsLines | std/cpp/NativeXmlImport.cpp:89-384 | the line at the end of a parse, also of a failing one, is that number |
| XmlSafety.EveryActNests | std/cpp/NativeXmlImport.cpp:101-336 | one round opens an element only at a start tag and closes only the innermost one, compared without case |
| XmlSafety.RunNests | std/cpp/NativeXmlImport.cpp:89-347 | a run keeps the tags read so far well nested and returns at the close tag of its element |
| XmlSafety.ParsedTextIsNested | std/cpp/NativeXmlImport.cpp:89-384 | whenever parsing returns normally the tags that stand in the text are well nested and none is left open, and the start tags among them are those of the elements reported and not done at once |
| XmlBalance.RunMatches | std/cpp/NativeXmlImport.cpp:89-347 | every run keeps the element and done callbacks in step with the start tags passed |
| XmlBalance.UndoneAreOpened | std/cpp/NativeXmlImport.cpp:209-218 | in every parse that returns normally a done callback comes only right after an element callback, the elements not done are in order those with an end tag, and so element and done callbacks balance exactly if no element has an end tag |
| XmlSafety.FinishesAtEnd | std/cpp/NativeXmlImport.cpp:337-346 | a run that finishes has consumed the whole text |
| XmlLeads.SkipLeads | std/cpp/NativeXmlImport.cpp:103-114 | any run of the four blanks is skipped, down to the state that waits behind it |
| XmlLeads.AttrLeads | std/cpp/NativeXmlImport.cpp:225-264 | an attribute, with blanks around its parts and in either kind of quotes, is read as its name and value |
| XmlLeads.AttrsLead | std/cpp/NativeXmlImport.cpp:225-264 | any number of attributes are collected into the map of their names and values |
| XmlLeads.EndTagReturns | std/cpp/NativeXmlImport.cpp:282-307 | an end tag that matches without regard to case makes its activation return, with an empty text if there was no content |
| XmlPrints.SectionItemLeads | std/cpp/NativeXmlImport.cpp:146-159 | a CDATA section, its word in either case, makes its callback |
| XmlPrints.RemarkLeads | std/cpp/NativeXmlImport.cpp:308-314 | a comment makes its callback and does not count as content |
| XmlPrints.InstructionLeads | std/cpp/NativeXmlImport.cpp:325-331 | a header makes a comment callback with the question marks |
| XmlPrints.TypeSectionLeads | std/cpp/NativeXmlImport.cpp:315-324 | a document type with balanced brackets, its word in either case, makes its callback and does not count as content |
| XmlPrints.TagLeads | std/cpp/NativeXmlImport.cpp:196-264 | a start tag with its attributes and blanks leads to the character that ends it |
| XmlPrints.SelfClosedLeads | std/cpp/NativeXmlImport.cpp:209-213 | a self-closed element makes the element callback and `done` |
| XmlPrints.PairedLeads | std/cpp/NativeXmlImport.cpp:214-218 | an element with an end tag makes the element callback, those of its content, an empty text if there is none, and no `done` |
| XmlPrints.WordsLead | std/cpp/NativeXmlImport.cpp:115-134 | text makes one text callback up to the next tag or the end |
| XmlPrints.ItemsLead | std/cpp/NativeXmlImport.cpp:89-336 | any sequence of laid out nodes makes the callbacks of the nodes in order |
| XmlErrors.RepeatedFails | std/cpp/NativeXmlImport.cpp:225-236 | a start tag whose attributes are well formed and all different, and then the name of one of them again, ends in the exception for a duplicate attribute, behind that name |
| XmlErrors.MistakeFails | std/cpp/NativeXmlImport.cpp:101-336 | wherever a node is expected, each of the mistakes is met with its exception, at the place where it shows |
| XmlErrors.MistakeInPath | std/cpp/NativeXmlImport.cpp:265-271 | the exception of an inner activation is that of the outermost, through any number of open elements |
| XmlErrors.RunEndsUnexpectedly | std/cpp/NativeXmlImport.cpp:89-347 | the end is called unexpected only at the terminator, and only a CDATA test can report another exception there |
| XmlReads.SkipRead | std/cpp/NativeXmlImport.cpp:103-114 | conversely, in a run that does not come to an unexpected end what is skipped are blanks, and something follows them |
| XmlReads.AttributeRead | std/cpp/NativeXmlImport.cpp:225-264 | what is read as an attribute is one (a name that is new in its tag, an equals sign, a value in quotes that it does not hold), or one of four slips |
| XmlReads.AttributesRead | std/cpp/NativeXmlImport.cpp:225-264 | what is read behind the name of a tag are attributes with different names, up to the end of the tag or a slip |
| XmlReads.EndRead | std/cpp/NativeXmlImport.cpp:282-307 | what is read as an end tag has the name of the open element, up to case, or is one of five mistakes |
| XmlReads.SectionRead | std/cpp/NativeXmlImport.cpp:135-142 | what is read as a section ends at the first occurrence of its terminator |
| XmlReads.DeclarationRead | std/cpp/NativeXmlImport.cpp:146-178 | what follows an exclamation mark is a section, a document type or a comment, or one of three mistakes |
| XmlReads.ElementRead | std/cpp/NativeXmlImport.cpp:196-264 | what is read as an element is one, or a mistake in its tags or its content |
| XmlReads.ItemsRead | std/cpp/NativeXmlImport.cpp:89-347 | what an activation reads is a sequence of laid out nodes, and then the end tag it needs or the end of the text, or a mistake, in whatever depth |
| XmlRoundTrip.ParsePrint | std/cpp/NativeXmlImport.cpp:89-384 | parsing any layout of any document, behind a byte order mark or without one, consumes it and makes exactly the callbacks of the document |
| XmlRoundTrip.ParsedIsPrinted | std/cpp/NativeXmlImport.cpp:89-384 | every text that is parsed without an exception is a layout of some document |
| XmlRoundTrip.AcceptedIffPrinted | std/cpp/NativeXmlImport.cpp:89-384 | the texts accepted are exactly the layouts of documents, and the callbacks are those of the document, whichever layout was read |
| XmlRoundTrip.RoundTrip | std/cpp/NativeXmlImport.cpp:89-384 | laying out a document and parsing gives it back exactly if the layout does not itself begin with the bytes of a byte order mark |
| XmlRoundTrip.PrintPrints | std/cpp/NativeXmlImport.cpp:89-336 | the plain print of a document, with single blanks, double quotes and capital words, is one of its layouts |
| XmlRoundTrip.MarkIsTaken | std/cpp/NativeXmlImport.cpp:381-382 | a concrete document that does not come back: a text of just the three bytes |
| XmlRoundTrip.ClosedNotDone | std/cpp/NativeXmlImport.cpp:214-218 | a concrete element that an end tag closes: it is reported and never done |
| XmlRoundTrip.SingleQuotes | std/cpp/NativeXmlImport.cpp:103-114 | a concrete tag with single quotes and a line break |
| XmlRoundTrip.OtherCase | std/cpp/NativeXmlImport.cpp:299 | a concrete element whose end tag is in the other case, with blanks wherever they may stand |
| XmlRoundTrip.NameCharacters | std/cpp/NativeXmlImport.cpp:83-87 | a concrete element with a name of characters of every kind, and its end tag in the other case |
| XmlRoundTrip.LowerCase | std/cpp/NativeXmlImport.cpp:146-159 | a concrete section with its word in lower case |
| XmlRoundTrip.ThreeBrackets | std/cpp/NativeXmlImport.cpp:135-142 | a concrete section that ends in a bracket |
| XmlRoundTrip.HeaderIsComment | std/cpp/NativeXmlImport.cpp:325-331 | a concrete header: a comment with question marks, and no content |
| XmlRoundTrip.BracketsInDocType | std/cpp/NativeXmlImport.cpp:315-324 | a concrete document type with its terminator inside brackets |
| XmlDocument.SubsAreContent | std/cpp/NativeXmlImport.cpp:337-346 | what spares the empty text are elements, texts and CDATA sections |
| XmlDocument.AttrMapValues | std/cpp/NativeXmlImport.cpp:256-264 | of attributes with different names each has the value written for it |
| XmlRoundTrip.MistakeIsReported | std/cpp/NativeXmlImport.cpp:89-384 | a text laid out well up to any of the mistakes is rejected with the exception for that mistake, at the place where it shows, however deep in the document that is |
| XmlRoundTrip.RejectedIsWrong | std/cpp/NativeXmlImport.cpp:89-384 | conversely, every text that is rejected before its end shows one of the mistakes |
| XmlRoundTrip.RejectedIffWrong | std/cpp/NativeXmlImport.cpp:89-384 | the exceptions other than an unexpected end are thrown exactly for the texts with one of the mistakes, each for its own |
| XmlRoundTrip.OthersEndTooEarly | std/cpp/NativeXmlImport.cpp:337-346 | all other texts that are no layout end too early, and the exception says so, at their end |
| XmlRoundTrip.TwiceTheSame | std/cpp/NativeXmlImport.cpp:230-231 | a concrete tag with an attribute that comes twice |
| ChunkBuffer.StringItem.CapacityIsTextAndRoom | libs/extc/process_stubs.c:79-84 | in a valid list every chunk but the first is full: capacity is text and the room left in the first |
| ChunkBuffer.Buffer.constructor | libs/extc/process_stubs.c:137-145 | an empty buffer |
| ChunkBuffer.Buffer.GrowBlen | libs/extc/process_stubs.c:97-98 | the chunk size is doubled until four times it exceeds the total length, and no further |
| ChunkBuffer.Buffer.AppendNew | libs/extc/process_stubs.c:94-107 | the text grows by the new chunk, which has exactly the larger of the chunk size and the length, and the capacity by more than a quarter |
| ChunkBuffer.Buffer.AppendSub | libs/extc/process_stubs.c:109-129 | the text grows by exactly the appended part, over the seam of two chunks |
| ChunkBuffer.Buffer.AppendStr | libs/extc/process_stubs.c:131-135 | the text grows by the C string |
| ChunkBuffer.Buffer.AppendChar | libs/extc/process_stubs.c:147-156 | the text grows by the character |
| ChunkBuffer.Buffer.ToString | libs/extc/process_stubs.c:158-174 | the text and a terminator |
| ChunkBuffer.CopyChunks | libs/extc/process_stubs.c:163-171 | filling from the end, newest chunk first, writes the text in order |
| WindowsCommandLine.AppendSlashes | libs/extc/process_stubs.c:303-305 | appends that many backslashes |
| WindowsCommandLine.AppendQuoted | libs/extc/process_stubs.c:292-327 | appends the quoted argument, held-back backslashes doubled where a quote follows |
| WindowsCommandLine.QuotedLength | libs/extc/process_stubs.c:298-327 | quoting adds nothing but a backslash before each quote and each backslash that a quote follows, and the closing quote |
| WindowsCommandLine.CommandLineLength | libs/extc/process_stubs.c:275-330 | the command takes two quotes, each argument a blank, two quotes and its escapes |
| WindowsCommandLine.BuildCommandLine | libs/extc/process_stubs.c:275-330 | the whole command line and a terminator |
| WindowsCommandLine.QuotedIsRead | libs/extc/process_stubs.c:298-327 | a quoted argument, with backslashes pending, is read back by the run time rules: 2n backslashes before a quote are n, 2n+1 are n and a quote |
| WindowsCommandLine.ArgumentsRoundTrip | libs/extc/process_stubs.c:291-350 | every argument list comes back from the C string exactly if no argument holds a NUL, whatever a run time does with doubled quotes |
| WindowsCommandLine.CommandIsRead | libs/extc/process_stubs.c:288-350 | the command up to a NUL comes back from the C string, with the arguments, exactly if it holds no quote and no argument holds a NUL |
| WindowsCommandLine.CommandLineRoundTrip | libs/extc/process_stubs.c:288-350 | command and arguments come back from the C string that is handed on exactly if the command holds no quote and neither it nor an argument holds a NUL |
| WindowsCommandLine.CutAtNul | libs/extc/process_stubs.c:298-350 | a concrete argument with a NUL that does not come back |
| HtmlText.HtmlEscape | std/StringTools.hx:158-177 | the loop writes the text in which no `<`, `>` or, on request, quote is left and every `&` begins an entity |
| HtmlText.EscapedCharacters | std/StringTools.hx:162-173 | what is written for each character, spelled out: five entities, two of them on request, and every other character as itself |
| HtmlText.EscapedAppend | std/StringTools.hx:161-175 | characters are escaped one by one |
| HtmlText.EscapedIsSafe | std/StringTools.hx:158-177 | in escaped text no markup character stands but those of the entities |
| HtmlText.SplitJoinReplaces | std/StringTools.hx:194-203 | a split and join replaces every leftmost occurrence |
| HtmlText.EntitiesAreApart | std/StringTools.hx:194-203 | no entity is a prefix of another, and none undone later holds the character that an earlier one stands for |
| HtmlText.OneMorePass | std/StringTools.hx:194-203 | after any of the replacements, the next one finds exactly the occurrences of the original text |
| HtmlText.UnescapeIsOnePass | std/StringTools.hx:193-204 | on every string the five passes in sequence are one pass from left to right, so nothing is unescaped twice |
| HtmlText.UnescapeInvertsEscape | std/StringTools.hx:158-204 | unescaping inverts escaping, with and without quotes, on every string |
| Utf16.EncodeDecode | std/StringTools.hx:636-642 | decoding well-formed UTF-16 loses nothing |
| Utf16.DecodeEncode | std/StringTools.hx:636-642 | encoding any code points gives well-formed UTF-16 that decodes to them |
| Utf16.EncodeIsRfc2781 | std/StringTools.hx:636-642 | a code point is one unit or the two surrogates of section 2.1 of RFC 2781 |
| Utf16.ReadAtOffset | std/StringTools.hx:636-642 | reading at the native offset of a code point gives that code point, and its width leads to the next offset |
| Utf16.SliceAtOffsets | std/UnicodeString.hx:345-358 | a native slice between two such offsets encodes the code points between them |
| UnicodeString.Length | std/UnicodeString.hx:420-426 | the number of code points |
| UnicodeString.CharCodeAt | std/UnicodeString.hx:172-188 | indexing the code points, nothing outside |
| UnicodeString.CharAt | std/UnicodeString.hx:149-165 | the one code point at the index as a string, empty outside |
| UnicodeString.Walk | std/UnicodeString.hx:337-359 | the loop of substr and substring cuts the code point slice out of the native units; the result is well formed |
| UnicodeString.Substr | std/UnicodeString.hx:320-360 | slicing the code points, with positions and lengths counted from the end when negative, and an omitted length |
| UnicodeString.Substring | std/UnicodeString.hx:375-418 | slicing the code points between two ends, made non-negative, swapped and clipped |
| UnicodeSearch.ScanIsSound | std/UnicodeString.hx:215-247 | every position answered is a true occurrence at or after the start |
| UnicodeSearch.ScanIsLeftmost | std/UnicodeString.hx:215-247 | for a restartable needle it is the leftmost one, and -1 means there is none |
| UnicodeSearch.MissedIsMissed | std/UnicodeString.hx:234-237 | for any other needle there is a text that holds it and in which it is not found |
| UnicodeSearch.RightIffRestartable | std/UnicodeString.hx:189-248 | the documented answer is given for every text and start exactly if the needle is not empty and is restartable: no mismatch can fall inside another beginning of it |
| UnicodeSearch.FreshFirstIsRestartable | std/UnicodeString.hx:234-237 | such is every needle whose first code point does not recur |
| UnicodeSearch.AabIsMissed | std/UnicodeString.hx:234-237 | "aab" in "aaab" is not found |
| UnicodeSearch.IndexOf | std/UnicodeString.hx:205-248 | the loop over native offsets computes that scan from any start, omitted or negative; an empty needle gives -1; it terminates |
| Utf8.Validate | std/UnicodeString.hx:44-113 | true exactly for the concatenations of encoded scalar values, which are exactly the strings of the grammar in section 4 of RFC 3629 |
| Utf8.OctetsAreEncodings | std/UnicodeString.hx:44-113 | the grammar of section 4 and the encoding of section 3 of RFC 3629 describe the same byte strings |
| Utf8.MbOrdInvertsMbChr | std/php/_polyfills.php:14-50 | mb_ord inverts mb_chr exactly on the codes 0..0x1FFFFF, among all integers |
| Utf8.MbChrIsUtf8 | std/php/_polyfills.php:14-28 | on scalar values mb_chr writes the bytes of RFC 3629 |
| Utf8.MbChrShape | std/php/_polyfills.php:14-28 | how many bytes a code takes, their marks, and that their payloads spell the code |
| Utf8.RfcExamples | std/UnicodeString.hx:44-113 | characters of the examples in section 7 of RFC 3629, as the encoding has them |
| Utf8.MbOrdReadsUtf8 | std/php/_polyfills.php:35-50 | mb_ord reads the first character of every UTF-8 text |
| Utf8.ValidIffScalar | std/php/_polyfills.php:14-28 | the validator accepts what mb_chr writes exactly for scalar values |
| Utf8.MbChrReduces | std/php/_polyfills.php:18 | larger codes are written as their remainders |
| MultiArray.MultiArray.constructor | libs/extlib-leftovers/multiArray.ml:47-52 | an empty array |
| MultiArray.MultiArray.Empty | libs/extlib-leftovers/multiArray.ml:112-113 | whether there is no element |
| MultiArray.MultiArray.Clear | libs/extlib-leftovers/multiArray.ml:169-172 | as newly created |
| MultiArray.MultiArray.Get | libs/extlib-leftovers/multiArray.ml:115-119 | the element, or the error outside the array, in both forms |
| MultiArray.MultiArray.Set | libs/extlib-leftovers/multiArray.ml:121-125 | one element changed, or the error and nothing changed |
| MultiArray.MultiArray.MakeRoom | libs/extlib-leftovers/multiArray.ml:127-164 | room for one element by chunk, promotion or doubling, exactly when there is none, and no element lost; no chunk is ever spare |
| MultiArray.MultiArray.AddChunk | libs/extlib-leftovers/multiArray.ml:131-137 | the chunk table grows by one |
| MultiArray.MultiArray.CopyChunks | libs/extlib-leftovers/multiArray.ml:146-156 | promotion copies the block into chunks of 1024 with room for one element more |
| MultiArray.MultiArray.Resize | libs/extlib-leftovers/multiArray.ml:158-164 | the block doubles, from 0 to 1 |
| MultiArray.MultiArray.Add | libs/extlib-leftovers/multiArray.ml:127-167 | the sequence grows by the element in every regime, and says which regime comes next |
| MultiArray.GrowsIntoChunks | libs/extlib-leftovers/multiArray.ml:143-157 | promotion happens exactly at the doubling limit that the maximum length sets |
| MultiArray.LimitOfOnes | libs/extlib-leftovers/multiArray.ml:143-164 | for a maximum of 2^(k+1) - 1, as the run time has it, that limit is 2^k |
| MultiArray.OfArray | libs/extlib-leftovers/multiArray.ml:174-177 | an array built by additions holds its source |
| MultiArray.VisitsAllIff | libs/extlib-leftovers/multiArray.ml:212-219 | in every valid array the loops visit every element exactly if it is one block or its length is not a multiple of 1024; otherwise they miss the last 1024 |
| MultiArray.MultiArray.MissedIffLong | libs/extlib-leftovers/multiArray.ml:212-219 | in an array that only grew that is when it is longer than the doubling limit and a multiple of 1024 |
| MultiArray.MultiArray.FoldLeft | libs/extlib-leftovers/multiArray.ml:268-284 | folds over all elements, or over all but the last 1024, by that condition, in every valid array |
| MultiArray.MultiArray.Map | libs/extlib-leftovers/multiArray.ml:212-238 | maps all elements, or leaves the last 1024 blank, by that condition; the result is valid and has the same form and maximum |
| MultiArray.Init | libs/extlib-leftovers/multiArray.ml:54-81 | tabulates all elements, or leaves the last 1024 blank exactly if the length is above the maximum and a multiple of 1024; `make` is this with a constant |
| MultiArray.CountsTooFew | libs/extlib-leftovers/multiArray.ml:127-167 | a concrete run: 2098176 elements added on a 32-bit run time are counted as 2097152 |
| Rbuffer.LengthIsTrue | libs/extlib-leftovers/rbuffer.ml:24-26 | the cached length of a rope is that of its text |
| Rbuffer.RopeNth | libs/extlib-leftovers/rbuffer.ml:28-33 | the character of the text at that index |
| Rbuffer.BlitRope | libs/extlib-leftovers/rbuffer.ml:57-63 | writes the text of the rope in place and nothing else |
| Rbuffer.BlitSubrope | libs/extlib-leftovers/rbuffer.ml:78-92 | writes a stretch of the text, over any seam, and nothing else; its assertion holds |
| Rbuffer.Rbuffer.constructor | libs/extlib-leftovers/rbuffer.ml:41-45 | an empty string; the block size is clipped |
| Rbuffer.Rbuffer.Reset | libs/extlib-leftovers/rbuffer.ml:47-51 | the empty string again |
| Rbuffer.Rbuffer.Length | libs/extlib-leftovers/rbuffer.ml:53-54 | the length of the string |
| Rbuffer.Rbuffer.MoveBufferToRope | libs/extlib-leftovers/rbuffer.ml:116-130 | the string stays, the block is empty |
| Rbuffer.Rbuffer.AddChar | libs/extlib-leftovers/rbuffer.ml:132-136 | the string grows by the character |
| Rbuffer.Rbuffer.Alloc | libs/extlib-leftovers/rbuffer.ml:140-163 | hands out a place in the block, in a block of the rope after what the block held, or in one of its own; cached lengths stay true |
| Rbuffer.Rbuffer.SafeAddSubstring | libs/extlib-leftovers/rbuffer.ml:165-167 | in all three cases the string grows by what is written in the place handed out |
| Rbuffer.Rbuffer.AddSubstring | libs/extlib-leftovers/rbuffer.ml:169-172 | the string grows by the substring, or the error and nothing |
| Rbuffer.Rbuffer.AddString | libs/extlib-leftovers/rbuffer.ml:174-175 | the string grows by the string |
| Rbuffer.Rbuffer.AddBuffer | libs/extlib-leftovers/rbuffer.ml:177-181 | the string grows by that of the other buffer, also of itself; the other is untouched although its rope is shared |
| Rbuffer.Rbuffer.UnsafeContents | libs/extlib-leftovers/rbuffer.ml:66-74 | the string, or the error when it is longer than the maximum |
| Rbuffer.Rbuffer.Sub | libs/extlib-leftovers/rbuffer.ml:94-108 | the substring, or the error, exactly outside the documented bounds |
| Rbuffer.Rbuffer.Nth | libs/extlib-leftovers/rbuffer.ml:110-113 | the character, or the error outside the string |
| Rbuffer.AppendBeside | libs/extlib-leftovers/rbuffer.ml:177-181 | appending one buffer to another leaves any third one as it was, and none writes into a block of another |
| Rbuffer.AppendBoth | libs/extlib-leftovers/rbuffer.ml:177-181 | buffers appended one after the other, with shared ropes: the string is the concatenation, the others keep theirs |
| Base64Format.OctetsInvertSextets | libs/extlib-leftovers/base64.ml:48-94 | regrouping 8 to 6 bits and back gives every byte string back |
| Base64Bits.SextetsSpellBytes | libs/extlib-leftovers/base64.ml:48-67 | bit k of the characters, high bit first, is bit k of the bytes, and 0 behind the last of them |
| Base64Bits.OctetsSpellSextets | libs/extlib-leftovers/base64.ml:82-94 | bit k of the bytes read is bit k of the characters |
| Base64Format.Lengths | libs/extlib-leftovers/base64.ml:123-130 | n bytes make ceil(8n/6) characters, and floor(6m/8) of that is n |
| Base64Format.StreamIsGrouped | libs/extlib-leftovers/base64.ml:50-67 | what the stream writes byte by byte, with its flush, is the grouping of section 4 of RFC 4648 without padding |
| Base64Format.OctetsStep | libs/extlib-leftovers/base64.ml:82-94 | what the stream reads sextet by sextet is the inverse grouping |
| Base64Accumulator.ByteBits | libs/extlib-leftovers/base64.ml:58-66 | the bits taken off the 63-bit accumulator are those of the last two bytes, however often it has overflowed |
| Base64Accumulator.SextetBits | libs/extlib-leftovers/base64.ml:82-93 | the same for the sextets of the decoder |
| Base64.Encoder.Write | libs/extlib-leftovers/base64.ml:58-67 | writes the characters that the byte completes |
| Base64.Encoder.Output | libs/extlib-leftovers/base64.ml:68-73 | writes all complete characters of the bytes |
| Base64.Encoder.Flush | libs/extlib-leftovers/base64.ml:52-57 | writes the last bits filled up with zeros |
| Base64.EncodeString | libs/extlib-leftovers/base64.ml:123-126 | the characters that spell the bits of the bytes, six at a time and filled up with zeros, or the error for a table of another size |
| Base64.SextetsAreSpelled | libs/extlib-leftovers/base64.ml:48-67 | the grouping of the source is the one the bits determine |
| Base64.RfcExamples | libs/extlib-leftovers/base64.ml:123-126 | the encodings of "f", "fo" and "foo" of section 10 of RFC 4648, without padding |
| Base64.MakeDecodingTable | libs/extlib-leftovers/base64.ml:38-44 | each character has its last place in the table, others -1, or the error for a table of another size |
| Base64.Decoder.Fetch | libs/extlib-leftovers/base64.ml:82-94 | delivers the next byte, or the end of the input, or an invalid character |
| Base64.Decoder.Input | libs/extlib-leftovers/base64.ml:96-107 | delivers up to so many bytes, fewer only at the end of the input |
| Base64.DecodeString | libs/extlib-leftovers/base64.ml:128-130 | all complete bytes of the text, bit by bit, or an invalid character exactly if one of those it reads has no value |
| Base64.DecodedMeans | libs/extlib-leftovers/base64.ml:128-130 | the result is an invalid character exactly if one of the characters read has no value, and else has their bits |
| Base64.CharsAreAlphabet | libs/extlib-leftovers/base64.ml:31-36 | the 64 characters listed are the alphabet of section 4 of RFC 4648, each in its place |
| Base64.CharsAreDistinct | libs/extlib-leftovers/base64.ml:31-36 | none of them repeats |
| Base64.RepeatIsMisread | libs/extlib-leftovers/base64.ml:38-44 | with a repeated character some byte is read back as another |
| Base64.RoundTripIffDistinct | libs/extlib-leftovers/base64.ml:38-130 | decoding with the made table inverts encoding on all byte strings exactly if no character of the table repeats |

## Left out

- Objsize.Sizer.CObjsize: the heap is a finite graph whose scan list and reachable part hold no blue block, since blue is both the mark and the escape code; heap classification by page tables, young and old heap and the atomic header store of OCaml 5 are replaced by a field being a heap block and by a field update.
- ColorStream.Stream.WriteColor: a run is bounded by the largest C int, which it never exceeds in a heap of at most that many blocks; the overflow beyond is not modelled.
- BitArray.Realloc: a request for fewer than 8 bits, where `wordalign` would divide by zero, is outside, and the stream never makes one; allocation always succeeds, and the old store is left unchanged rather than freed; `_init` and the debugging dumps are not modelled.
- XmlParser.ParseXmlText: bytes are characters, the text of error messages is an error value with its position, and the Haxe objects behind the callbacks are the list of callbacks made.
- XmlRoundTrip.RoundTrip: the layouts are those of this parser; no claim is made about conformance to XML 1.0 or about balanced element and `done` callbacks, which the code does not make.
- WindowsCommandLine.BuildCommandLine: the branch for a raw shell command, the pipes and the process itself are not modelled.
- ChunkBuffer.Buffer.AppendNew: lengths are unbounded integers, not C ints, and freeing is not modelled; a buffer with initial contents is not used by this code.
- UnicodeString.Walk: `substr` and `substring` share one loop here that the source writes twice; strings with unpaired surrogates are outside, and `String.fromCharCode` is taken to encode any code point.
- UnicodeSearch.IndexOf: only well-formed strings; `lastIndexOf` is left out.
- Utf8.Validate: the encoding `RawNative`, which throws, is left out.
- Utf8.MbOrdReadsUtf8: the encoding argument that makes `mb_chr` and `mb_ord` throw is left out; a byte that is missing counts as 0, as PHP converts null.
- MultiArray.MultiArray.Add: limits of allocation other than `Sys.max_array_length` are not modelled; `iter`, `iteri`, `mapi` and `of_list` would only repeat the same loops.
- Rbuffer.Rbuffer.AddBuffer: lengths are unbounded, except that a string argument and every block is no longer than `Sys.max_string_length`, which the language guarantees; the block of the other buffer is read as the value it has at the call.
- Rbuffer: `add_channel`, `output_buffer` and `print` do input and output and are left out.
- Base64.DecodeString: the IO module is not part of this model: an output is the list of characters written, an input a string with a position, and reading n bytes is one call of `input`; decoding tables hold -1 or a value below 64, as documented; `str_encode` and `str_decode` are the same on bytes.
- Code that would only add easy members: `extc_stubs.c`, extern-only standard library files, `Lambda.hx`, `UInt.hx`, `DateTools.hx`, the accessors of `Xml.hx`.
