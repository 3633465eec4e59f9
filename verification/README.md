# Breakpad symbol and crash library: a verified model

A Dafny model of the hardest code in the Breakpad library that this repository carries under `Breakpad/common`, with
proofs of what that code promises. `dafny verify dfyconfig.toml` checks everything.

What is modelled, component by component:

- **Line and function sweep** (`SweepSpec`, `SweepStep`, `SweepReports`, `DwarfCUToModule`, `DwarfLineToModule`).
  DWARF gives functions and lines as two families of address ranges. One pass divides the lines among the functions, in
  64-bit arithmetic that wraps. The reference is declarative: a function's lines are its non-empty intersections with
  the input lines, and a warning is due for every function with an uncovered byte and every line with a stray one.
- **UTF converters** (`Transcoding`, `UnicodeForms`, `ConvertUTFSteps`, `ConversionLoop`, `ConvertUTF`,
  `ConvertUTFTheorems`, `ConvertUTFResults`, `UTF32Reports`, `StringConversion`). The six pointer loops over arrays, against
  a step function for each, and those against the encoding forms of section 3.9 of the Unicode Standard (Table 3-7), section 3 of RFC 3629 and section
  2 of RFC 2781.
- **DIE dispatcher** (`DieHandlers`, `DieLives`, `DieDispatcher`). A stack machine driven by events, against the recursive
  visit that its header documents, and both against the series of calls that the header promises each handler. A handler is
  a function of the calls made so far, so every choice of answers is covered.
- **Page allocator** (`PageAllocator`). A bump allocator over mapped regions; what mmap returns is a parameter.
- **LEB128 and encoded pointers** (`Leb128`, `FixedWidth`, `EncodedPointers`, `EncodingBytes`, `ByteReader`, `CFISection`,
  `EncodedPointerPipeline`). A printer and a parser of the numbers of section 7.6 of DWARF 4 and the pointers of section
  11.5 of LSB Core 4.0, what each encoding byte stands for, and what the one makes of the other's output.
- **STABS** (`ByteCursor`, `StabsEntries`, `StabsProtocol`, `StabsNames`, `StabsReader`, `Sorting`, `Module`,
  `StabsToModule`, `StabsFunctions`, `StabsPipeline`). A reader with nested loops and an entry of lookahead, against a one-pass meaning of
  the section; the protocol its calls obey; the sizes inferred afterwards; and what the module that the functions are added
  to then holds. What the C++ runtime makes of a mangled name is a parameter.
- **MD5 streaming** (`Words`, `WordBits`, `MD5Transform`, `MD5`, `MD5Known`). A context fed in pieces, against padding and
  processing the whole message as in section 3 of RFC 1321, down to the 64 unrolled steps; the word operations against those
  of 32-bit vectors; and one digest of the RFC's test suite.
- **Fixed-storage map** (`SimpleStringDictionary`). An array of fixed-size string buffers, against a finite map.

Addresses are integers below 2^64 (`Addresses`); sums and differences wrap explicitly. Pointers into buffers are indices.
Bytes are numbers below 256, except in the UTF modules, where units are bit-vectors. `Arithmetic`, `Sequences` and
`Options` hold what several components need.

Where the code does not do what it is for, the model keeps the code; a lemma says exactly when it does, and another gives
an input on which it does not:

- `isLegalUTF8` accepts ill-formed sequences after the lead bytes ED and F4 (`LegalExactly`, `IllFormedAccepted`); a
  text with one of them does not survive a round trip (`UTF8RoundTrip`, `IllFormedDoesNotReturn`).
- Lenient conversion from UTF-16 consumes an unpaired high surrogate only because of the unit after it, so its output
  need not be that of the source it consumed. This happens exactly if the source has a high surrogate followed by
  something other than its low surrogate, and never in strict mode (`UTF16toUTF8OutputExactly`,
  `UTF16toUTF32OutputExactly`, `LenientOutputIsNotOwn`).
- Resuming a conversion from UTF-32 can lose the report of a replaced value. On which sources it can is told from where
  the last value above 10FFFF stands (`UTF32toUTF8LosesExactly`, `UTF32toUTF16LosesExactly`, `UTF8ReportIsLost`,
  `UTF16ReportIsLost`).
- A lenient conversion from UTF-16 writes bytes that are not UTF-8, and that are not accepted back, exactly for sources with
  unpaired surrogates (`LenientOutputExactly`, `UnpairedIsWritten`).
- The sweep's second written invariant, that the state of a byte changes at every transition, fails where one range ends
  and the next begins (`StateChangesExactly`, `StateAlwaysChangesExactly`, `MeetingLinesChangeNothing`).
- The allocator's rounding can wrap (`SafeExactlyWithoutWrap`, `LargestRequestIsNotSafe`).
- `ValidEncoding` accepts low nibble 8, on which the reader aborts (`ValidEncodingExactly`, `LowNibbleEightIsAccepted`);
  aligned pointers are printed as if the section were loaded at an aligned address (`PaddingAgrees`,
  `UnalignedSectionMisreads`).
- A STABS section with a function that has no name stops the program at an assertion of the module (`NamelessExactly`,
  `LoadStabs`, `NamelessFunctionIsKept`).
- The STABS string base is not accumulated over unit headers (`StringBaseExactly`, `ThirdUnitIsMisplaced`).
- A DIE handler that is handed out again while it is in use is called after its destruction, and only then
  (`VisitCalledAliveExactly`, `DestructedCalledAliveExactly`, `HandedOutTwice`).
- The map never finds a key that is too long for its buffer (`SetThenLookupExactly`, `SetLongKey`, `LongKeyIsLost`), and
  an empty key matches a free entry (`LookupExactly`, `EmptyKeyIsFound`).

## Model

| member | source | states |
|---|---|---|
| Addresses.WithinIsMembership | Breakpad/common/dwarf_cu_to_module.cc:810-816 | the wrapping comparison holds exactly for the addresses in a range that does not wrap |
| SweepSpec.PiecesMembership | Breakpad/common/dwarf_cu_to_module.cc:818-866 | the pieces of a function are one intersection for each line that overlaps it, and nothing else |
| SweepSpec.PiecesAscend | Breakpad/common/dwarf_cu_to_module.cc:818-866 | for sorted disjoint lines the pieces are non-empty, in address order, disjoint and inside the function |
| SweepSpec.PiecesCover | Breakpad/common/dwarf_cu_to_module.cc:818-866 | a byte of a function is in a piece with some file and number exactly when it is in a line with them |
| SweepStep.NextTransitionAdvances | Breakpad/common/dwarf_cu_to_module.cc:893-976 | the next transition lies past the current one, is an endpoint of some range, and skips no endpoint of the current items |
| SweepStep.MoveKeepsAtTransition | Breakpad/common/dwarf_cu_to_module.cc:879-890 | what the pieces rely on: in both a function and a line, the current address is the later of their starts |
| SweepStep.StateChangesExactly | Breakpad/common/dwarf_cu_to_module.cc:879-890 | the state that the loop's second written invariant speaks of changes at an address exactly if, for functions or for lines, one ends there and none starts, or one starts and none ends |
| SweepStep.NoEndpointSkipped | Breakpad/common/dwarf_cu_to_module.cc:893-976 | on disjoint inputs no endpoint lies between the current address and the next transition |
| SweepStep.MeetingLinesChangeNothing | Breakpad/common/dwarf_cu_to_module.cc:879-890 | a concrete function over two lines that meet, where it does not |
| SweepStep.MoveKeepsPieces | Breakpad/common/dwarf_cu_to_module.cc:893-1006 | an iteration keeps every function's list equal to its intersections with the lines passed so far |
| SweepReports.UncoveredFunctionsBelow | Breakpad/common/dwarf_cu_to_module.cc:929-936 | the reference list of uncovered functions holds each function with an uncovered byte once, in order, and no other |
| SweepReports.StrayLinesBelow | Breakpad/common/dwarf_cu_to_module.cc:948-960 | the reference list of stray lines holds each line with a stray byte once, in order, and no other |
| SweepReports.ExcusedIsPadding | Breakpad/common/dwarf_cu_to_module.cc:948-960 | the code's test for the excused case holds exactly when the byte is padding: in a used line that ends where the next function starts |
| SweepReports.MoveKeepsFunctionReports | Breakpad/common/dwarf_cu_to_module.cc:929-936 | after every iteration the functions warned about are those with a gap before the current address |
| SweepReports.MoveKeepsLineReports | Breakpad/common/dwarf_cu_to_module.cc:948-960 | after every iteration the lines warned about are those with a stray byte before the current address |
| SweepReports.EmitKeepsFragments | Breakpad/common/dwarf_cu_to_module.cc:893-925 | on any proper inputs, overlapping ones included, pieces stay ascending and disjoint, each inside its function and some line |
| SweepReports.VisitsBounded | Breakpad/common/dwarf_cu_to_module.cc:879-1006 | the transitions visited are distinct range endpoints, so there are at most 2(F+L) |
| SweepReports.InvariantKept | Breakpad/common/dwarf_cu_to_module.cc:879-1006 | all of the loop's invariants survive one iteration, and the current address strictly increases |
| SweepReports.InvariantAtEnd | Breakpad/common/dwarf_cu_to_module.cc:879-1006 | at the end the pieces and both lists of warnings are exactly the reference ones, and every endpoint but the greatest was visited |
| SweepReports.VisitsCounted | Breakpad/common/dwarf_cu_to_module.cc:879-1006 | there is one iteration less than there are distinct endpoints |
| SweepReports.StateAlwaysChangesExactly | Breakpad/common/dwarf_cu_to_module.cc:879-890 | the second written invariant holds at every address visited exactly if no endpoint below 2^64 leaves both functions and lines as they were |
| DwarfCUToModule.DwarfCUToModule.FinishFunction | Breakpad/common/dwarf_cu_to_module.cc:520-549 | keeps exactly the functions with a non-zero start below their end, and these are fit for the sweep |
| DwarfCUToModule.DwarfCUToModule.ReadSourceLines | Breakpad/common/dwarf_cu_to_module.cc:784-806 | the lines a line program recorded meet the sweep's precondition |
| DwarfCUToModule.DwarfCUToModule.VisitTransition | Breakpad/common/dwarf_cu_to_module.cc:893-976 | the classifying half of the loop body, in wrapping arithmetic, does one iteration; a transition at 2^64 comes out as zero |
| DwarfCUToModule.DwarfCUToModule.FirstTransition | Breakpad/common/dwarf_cu_to_module.cc:863-877 | the least address of the sorted lists, where the loop's invariants hold; nothing exactly when both lists are empty |
| DwarfCUToModule.DwarfCUToModule.Advance | Breakpad/common/dwarf_cu_to_module.cc:978-1005 | after both iterators have moved, the loop's invariants hold at the next transition, which is past the current one |
| DwarfCUToModule.SkipPast | Breakpad/common/dwarf_cu_to_module.cc:982-1005 | an iterator ends on the first item that does not lie before the next transition |
| DwarfCUToModule.DwarfCUToModule.Sweep | Breakpad/common/dwarf_cu_to_module.cc:879-1006 | no assertion fails, at most 2(F+L) iterations, pieces in order on all inputs; exact pieces and warnings on disjoint ones, with one iteration for every endpoint but the greatest |
| DwarfCUToModule.DwarfCUToModule.AssignLinesToFunctions | Breakpad/common/dwarf_cu_to_module.cc:818-1007 | the same of the unsorted inputs, which end up sorted in place |
| DwarfLineToModule.RecordedAreProper | Breakpad/common/dwarf_line_to_module.cc:106-141 | every recorded line is non-empty and ends inside the address space, as the sweep requires |
| DwarfLineToModule.OmitTest | Breakpad/common/dwarf_line_to_module.cc:117-127 | comparing with the end of the last omitted line finds exactly the lines of a contiguous run that starts at address zero |
| DwarfLineToModule.DeadExactly | Breakpad/common/dwarf_line_to_module.cc:117-127 | the lines left out are those at address zero and those that a chain of lines, each starting where the one before ends, joins to address zero |
| DwarfLineToModule.DwarfLineToModule.DefineFile | Breakpad/common/dwarf_line_to_module.cc:73-104 | number -1 gets a number not in use; the file is entered under its number and nothing else changes |
| DwarfLineToModule.DwarfLineToModule.AddLine | Breakpad/common/dwarf_line_to_module.cc:106-141 | a line with the address, the clipped length, the file with the number and the line number is appended exactly if the length is not zero, the file is known, and the line is neither at address zero nor continues a run from there; over any calls, the lines are those |
| UnicodeForms.EncodeUTF8WellFormed | Breakpad/common/convert_UTF.c:195-201 | the UTF-8 encoding of every scalar value is well formed by Table 3-7 and carries the value |
| UnicodeForms.WellFormedIsEncoded | Breakpad/common/convert_UTF.c:286-320 | every well-formed sequence is the encoding of the scalar value it carries |
| UnicodeForms.Examples | Breakpad/common/convert_UTF.c:195-201 | the examples of RFC 3629 and RFC 2781, byte by byte |
| ConvertUTFSteps.LegalExactly | Breakpad/common/convert_UTF.c:297-320 | `isLegalUTF8` accepts Table 3-7 and, besides, exactly ED and F4 followed by 00..7F in second place |
| ConvertUTFSteps.IllFormedAccepted | Breakpad/common/convert_UTF.c:305-312 | concrete ill-formed sequences after both lead bytes that are accepted |
| ConvertUTFSteps.DecodedIsPayload | Breakpad/common/convert_UTF.c:355-365 | adding bytes and subtracting an offset from the table gives the value the bits carry |
| ConvertUTFSteps.LegalDecodesToScalar | Breakpad/common/convert_UTF.c:344-401 | every accepted sequence decodes to a scalar value, so the surrogate and above-10FFFF arms are never taken |
| ConvertUTFSteps.FlagsDoNotMatter | Breakpad/common/convert_UTF.c:344-401 | strict and lenient decoding of UTF-8 agree on every input |
| ConvertUTFSteps.Decode16IsLegal | Breakpad/common/convert_UTF.c:114-166 | no UTF-16 source gives a value above 10FFFF |
| Transcoding.Resume | Breakpad/common/convert_UTF.c:338-406 | stopping at a full target and resuming gives the output and the result of one call with both rooms |
| Transcoding.ChunksAreOneCall | Breakpad/common/convert_UTF.c:338-406 | however the target is cut into pieces, the calls together are one call, with a room that is named; if the last piece was not too small, every larger room gives the same |
| Transcoding.OutputIsOfConsumed | Breakpad/common/convert_UTF.c:338-406 | what was written is the conversion of exactly what was consumed |
| Transcoding.ResumeWithBad | Breakpad/common/convert_UTF.c:410-458 | for any converter, resuming gives the same output, and the same result unless a mark was left and the second call ends in conversionOK |
| ConvertUTFTheorems.UTF16RoundTrip | Breakpad/common/convert_UTF.c:217-282 | every well-formed UTF-16 text is consumed whole, gives well-formed UTF-8, and comes back from it unchanged |
| ConvertUTFTheorems.ThroughUTF32 | Breakpad/common/convert_UTF.c:114-166 | going through UTF-32 gives scalar values and then the same UTF-8 |
| ConvertUTFTheorems.ScalarsConvert | Breakpad/common/convert_UTF.c:66-519 | a converter that carries single scalar values from one form to another converts every text of them whole |
| ConvertUTFTheorems.From8to32Carries | Breakpad/common/convert_UTF.c:462-519 | in both modes the conversion from UTF-8 to UTF-32 carries every scalar value, whatever follows it |
| ConvertUTFTheorems.From32to8Carries | Breakpad/common/convert_UTF.c:410-458 | so does the conversion back |
| ConvertUTFTheorems.From32to16Carries | Breakpad/common/convert_UTF.c:66-110 | so does the conversion from UTF-32 to UTF-16 |
| ConvertUTFTheorems.StrictUTF16Accepts | Breakpad/common/convert_UTF.c:217-282 | a strict call accepts a text exactly when it is well-formed UTF-16 |
| ConvertUTFTheorems.UTF8toUTF16Exactly | Breakpad/common/convert_UTF.c:338-406 | a call accepts exactly the texts that split into accepted sequences, writes the UTF-16 of their values, and never more units than bytes |
| ConvertUTFTheorems.UTF8RoundTrip | Breakpad/common/convert_UTF.c:338-406 | an accepted text comes back from UTF-16 unchanged exactly when it is well formed |
| ConvertUTFTheorems.IllFormedDoesNotReturn | Breakpad/common/convert_UTF.c:305-312 | a concrete accepted text that does not come back, in any mode |
| ConvertUTFTheorems.UTF8Stable | Breakpad/common/convert_UTF.c:338-406 | cutting UTF-8 source after what a step consumes does not change the step |
| ConvertUTFTheorems.UTF8OutputIsOwn | Breakpad/common/convert_UTF.c:338-519 | in either mode and for every target size, the output of a call from UTF-8 is that of the source it consumed |
| ConvertUTFTheorems.LenientOutputExactly | Breakpad/common/convert_UTF.c:217-282 | a lenient call that converts its whole source writes well-formed UTF-8, which is accepted back, exactly when the source is well formed |
| ConvertUTFTheorems.UnpairedIsWritten | Breakpad/common/convert_UTF.c:225-243 | a concrete lenient call that ends in conversionOK and writes something else |
| ConvertUTFTheorems.UTF16toUTF8OutputExactly | Breakpad/common/convert_UTF.c:217-282 | for every target size the output is what the consumed source gives on its own, exactly in strict mode or when no high surrogate is followed by something other than a low one |
| ConvertUTFTheorems.UTF16toUTF32OutputExactly | Breakpad/common/convert_UTF.c:114-166 | the same for the conversion to UTF-32 |
| ConvertUTFTheorems.StrictOutputIsOwn | Breakpad/common/convert_UTF.c:217-282 | a strict call's output is always that of the source it consumed |
| ConvertUTFTheorems.LenientOutputIsNotOwn | Breakpad/common/convert_UTF.c:225-243 | a concrete lenient call whose output is not |
| ConvertUTFTheorems.LenientUTF16NotStable | Breakpad/common/convert_UTF.c:225-243 | a concrete source where the lenient step depends on the unit after what it consumes |
| UTF32Reports.UTF32toUTF8LosesExactly | Breakpad/common/convert_UTF.c:410-458 | some target size loses a report, by stopping and resuming, exactly when the last value above 10FFFF is not the last value and, in strict mode, there are no surrogates |
| UTF32Reports.UTF32toUTF16LosesExactly | Breakpad/common/convert_UTF.c:66-110 | the same, in strict mode only, and only when what follows that value takes more than one unit |
| UTF32Reports.UTF8ReportIsLost | Breakpad/common/convert_UTF.c:437-440 | a concrete source and target size where the report is lost, in either mode |
| UTF32Reports.UTF16ReportIsLost | Breakpad/common/convert_UTF.c:66-110 | the same for UTF-16, in strict mode |
| ConvertUTFResults.UTF16toUTF8Result | Breakpad/common/convert_UTF.c:217-282 | with room enough, which source a conversion ends in which result: strict by well-formedness and a high surrogate at the end, lenient by the last unit alone |
| ConvertUTFResults.UTF16toUTF32Result | Breakpad/common/convert_UTF.c:114-166 | the same to UTF-32 |
| ConvertUTFResults.UTF8toUTF16Exhausted | Breakpad/common/convert_UTF.c:338-406 | with room enough, sourceExhausted exactly for a source that breaks off inside a sequence after accepted ones, in either mode |
| ConvertUTFResults.UTF8toUTF32Exhausted | Breakpad/common/convert_UTF.c:462-519 | the same to UTF-32 |
| ConvertUTFResults.UTF32toUTF8Lenient | Breakpad/common/convert_UTF.c:410-458 | with room enough, the whole source is taken, U+FFFD is written for each value above 10FFFF, and the result tells whether there was one |
| ConvertUTFResults.UTF32toUTF16Lenient | Breakpad/common/convert_UTF.c:66-110 | the same to UTF-16, with U+FFFD for surrogates too, and no report |
| ConvertUTFResults.UTF32toUTF8Strict | Breakpad/common/convert_UTF.c:420-428 | a strict call takes what comes before the first surrogate and reports that and values above 10FFFF |
| ConvertUTFResults.UTF32toUTF16Strict | Breakpad/common/convert_UTF.c:77-95 | the same to UTF-16, where nothing is written for values above 10FFFF |
| ConvertUTFResults.FullTargetTo16 | Breakpad/common/convert_UTF.c:73-83 | at a surrogate with the target full, the conversion to UTF-16 reports the target |
| ConvertUTFResults.FullTargetTo8 | Breakpad/common/convert_UTF.c:420-428 | and the one to UTF-8 the surrogate |
| ConvertUTFTheorems.UTF32OneCallReports | Breakpad/common/convert_UTF.c:437-440 | one call on a concrete source with a bad value reports sourceIllegal |
| ConvertUTFTheorems.UTF32TwoCallsDoNot | Breakpad/common/convert_UTF.c:437-440 | two calls on it end in conversionOK |
| ConvertUTF.ConvertUTF8toUTF16 | Breakpad/common/convert_UTF.c:338-406 | the pointer loop leaves the source and target pointers, the target array and the result of the conversion; nothing outside the target range changes |
| ConvertUTF.ConvertUTF8toUTF32 | Breakpad/common/convert_UTF.c:462-519 | the same, with sourceIllegal remembered past a replaced value |
| ConvertUTF.ConvertUTF16toUTF8 | Breakpad/common/convert_UTF.c:217-282 | the same, backing up over a pair when the target is full |
| ConvertUTF.ConvertUTF16toUTF32 | Breakpad/common/convert_UTF.c:114-166 | the same |
| ConvertUTF.ConvertUTF32toUTF8 | Breakpad/common/convert_UTF.c:410-458 | the same |
| ConvertUTF.ConvertUTF32toUTF16 | Breakpad/common/convert_UTF.c:66-110 | the same |
| ConvertUTF.ReadUTF8 | Breakpad/common/convert_UTF.c:355-365 | the fall-through switch reads the value the sequence decodes to |
| ConvertUTF.WriteUTF8 | Breakpad/common/convert_UTF.c:247-274 | checks the room first, then writes the encoding of the value or its replacement, touching nothing else |
| ConvertUTF.MarkBytes | Breakpad/common/convert_UTF.c:266-272 | the fall-through switch, writing backwards, leaves the encoding in order |
| ConvertUTF.ReadUTF16 | Breakpad/common/convert_UTF.c:222-246 | reads a unit or a pair as the decoding says, and stays put on an error |
| StringConversion.UTF8ToUTF16 | Breakpad/common/string_conversion.cc:41-56 | gives the UTF-16 of the string and a terminator, or an empty vector; nothing is written outside the vector despite the larger end pointer |
| StringConversion.PrefixConverts | Breakpad/common/string_conversion.cc:58-83 | the first bytes convert when they are just the first accepted sequence; fewer bytes, or any number of an unacceptable sequence, give nothing |
| StringConversion.UTF8ToUTF16Char | Breakpad/common/string_conversion.cc:58-83 | returns the length of the first accepted sequence and its units, or zero |
| DieHandlers.WalkRoot | Breakpad/common/dwarf/dwarf2diehandler.cc:60-135 | for every tree with distinct offsets and every choice of answers, the stack machine makes the calls of the documented visit, fails no assertion and leaves the stack empty |
| DieHandlers.WalkChild | Breakpad/common/dwarf/dwarf2diehandler.cc:60-135 | a child's events make the calls of its visit and restore the stack |
| DieHandlers.WalkIgnored | Breakpad/common/dwarf/dwarf2diehandler.cc:63-66 | the events of an ignored subtree make no call and change nothing |
| DieHandlers.RootLivedOut | Breakpad/common/dwarf/dwarf2diehandler.h:169-180 | every handler receives EndAttributes and Finish as often as it was handed out, and every one but the root is destroyed as often |
| DieHandlers.RunKeeps | Breakpad/common/dwarf/dwarf2diehandler.cc:60-135 | over any events, in any order: NULL entries are only ever on top, and every handler has been finished, and destroyed, as often as handed out, less its entries on the stack |
| DieHandlers.DestructionIsComplete | Breakpad/common/dwarf/dwarf2diehandler.cc:43-58 | destroying the dispatcher at any point destroys every handler but the root as often as it was handed out |
| DieHandlers.WalkKeepsFailure | Breakpad/common/dwarf/dwarf2diehandler.cc:60-135 | a failed assertion stays failed, so success at the end of a walk covers every step of it |
| DieLives.LifeMeans | Breakpad/common/dwarf/dwarf2diehandler.h:169-180 | a handler that receives the documented series of calls is called only while in use and handed out only while not |
| DieLives.VisitRootLives | Breakpad/common/dwarf/dwarf2diehandler.h:169-180 | in the visit of a unit, a handler that is not handed out while in use receives, each time it is handed out, attributes, EndAttributes, FindChildHandler if that returned true, Finish and at once its destruction, and no other call |
| DieLives.VisitRootInOrder | Breakpad/common/dwarf/dwarf2diehandler.cc:69-73 | whatever the answers, each destruction is immediately preceded by Finish of the same handler, each Finish has its own EndAttributes before it, and the root handler is not destroyed |
| DieLives.RunInOrder | Breakpad/common/dwarf/dwarf2diehandler.cc:123-127 | the same over any events |
| DieLives.RunLives | Breakpad/common/dwarf/dwarf2diehandler.cc:60-135 | over any events, a handler that is not handed out while in use is on the stack exactly while it is, and has received a beginning of the documented series |
| DieLives.VisitCalledAliveExactly | Breakpad/common/dwarf/dwarf2diehandler.cc:82-84 | in the visit of a unit, no call is made on a handler before it is handed out, or between its destruction and its next handing out, exactly if it is not handed out while in use |
| DieLives.DestructedCalledAliveExactly | Breakpad/common/dwarf/dwarf2diehandler.cc:43-135 | the same over any events followed by the destruction of the dispatcher |
| DieLives.HandedOutTwice | Breakpad/common/dwarf/dwarf2diehandler.cc:82-84 | concrete answers with which a handler is called after its destruction |
| DieLives.DestructTopFirst | Breakpad/common/dwarf/dwarf2diehandler.cc:43-50 | the dispatcher destroys the handlers on its stack from the top down |
| DieLives.WorkedVisit | Breakpad/common/dwarf/dwarf2diehandler.h:169-180 | a concrete tree with refused handlers and declined children, call by call |
| DieDispatcher.DIEDispatcher.StartDIE | Breakpad/common/dwarf/dwarf2diehandler.cc:60-113 | the machine step, and spelled out: the answer, the calls and the new stack in each case |
| DieDispatcher.DIEDispatcher.EndDIE | Breakpad/common/dwarf/dwarf2diehandler.cc:115-135 | the machine step under its assertions, and spelled out: EndAttributes unless reported, Finish, destruction unless root, and the stack |
| DieDispatcher.DIEDispatcher.ProcessAttribute | Breakpad/common/dwarf/dwarf2diehandler.cc:137-196 | the attribute goes to the handler on top |
| DieDispatcher.DIEDispatcher.ProcessCompilationUnit | Breakpad/common/dwarf/dwarf2diehandler.cc:60-135 | the class, fed a whole tree, makes exactly the calls of the documented visit, so each handler is finished before it is destroyed and is called in the documented order |
| DieDispatcher.DIEDispatcher.Dispose | Breakpad/common/dwarf/dwarf2diehandler.cc:43-58 | empties the stack, destroying all handlers but the root |
| PageAllocator.RoundedUp | Breakpad/common/memory.h:89-98 | without wrapping, the pages are just enough, and the modular formula gives where the bytes end in the last page |
| PageAllocator.AllocStepSafe | Breakpad/common/memory.h:74-101 | one call keeps blocks disjoint, inside one region each, behind its header, and off the free tail |
| PageAllocator.AllocStepAllocates | Breakpad/common/memory.h:74-101 | the step in plain arithmetic: where the block lies, how many pages are mapped, and what is left to hand out |
| PageAllocator.SafeExactlyWithoutWrap | Breakpad/common/memory.h:89-100 | a call that maps new pages keeps everything safe exactly when its rounding does not wrap |
| PageAllocator.LargestRequestIsNotSafe | Breakpad/common/memory.h:89-100 | the largest request: the kernel keeps its promise, and the block is not safe |
| PageAllocator.RunSafe | Breakpad/common/memory.h:74-101 | the same over any run of calls, with any pattern of mmap failures |
| PageAllocator.PageAllocator.Alloc | Breakpad/common/memory.h:74-101 | the class does one specified step and keeps all blocks safe; unless the rounding wraps, the block is the front of the free tail if it fits, exactly filling included, and otherwise follows the 16-byte header of the fewest new pages |
| PageAllocator.PageAllocator.GetNPages | Breakpad/common/memory.h:116-139 | a mapped region goes to the front of the list with its number of pages |
| PageAllocator.PageAllocator.OwnsPointer | Breakpad/common/memory.h:105-113 | true exactly for addresses inside some region |
| PageAllocator.PageAllocator.FreeAll | Breakpad/common/memory.h:141-148 | every region is unmapped once, with its own base and length |
| Leb128.OrIsSum | Breakpad/common/dwarf/bytereader-inl.h:104 | or-ing in bits above those set so far adds them |
| Leb128.EncodeUnsignedValue | Breakpad/common/dwarf/bytereader.h:79-96 | the encoding is one number and its value is the number encoded |
| Leb128.EncodeSignedValue | Breakpad/common/dwarf/bytereader.h:98-115 | the same for signed numbers |
| Leb128.UnsignedExamples | Breakpad/common/dwarf/bytereader.h:79-96 | the encodings that DWARF 4 gives as examples |
| Leb128.SignedExamples | Breakpad/common/dwarf/bytereader.h:98-115 | the same for signed numbers |
| Leb128.EncodeSignedLength | Breakpad/common/dwarf/bytereader.h:98-115 | the encoding of a number of 7k bits, sign included, takes at most k bytes |
| Leb128.ReadUnsigned | Breakpad/common/dwarf/bytereader-inl.h:92-112 | reads exactly one number and its value modulo 2^64 |
| Leb128.ReadSigned | Breakpad/common/dwarf/bytereader-inl.h:117-135 | the same with sign extension, up to the tenth byte, where nothing is left to extend |
| Leb128.UnsignedRoundTrip | Breakpad/common/dwarf/bytereader-inl.h:92-112 | for every 64-bit number and any surroundings, reading the encoding gives the number and the encoding's length |
| Leb128.SignedRoundTrip | Breakpad/common/dwarf/bytereader-inl.h:117-135 | the same for every signed 64-bit number |
| FixedWidth.ReadBytesReads | Breakpad/common/dwarf/bytereader-inl.h:42-85 | the shifts and ors of the fixed-width readers give the number the bytes stand for, in both byte orders |
| FixedWidth.ReadWritten | Breakpad/common/test_assembler.cc:204-219 | reading what was written in n bytes gives the number modulo 256^n, in both byte orders |
| EncodedPointers.CodeDecodes | Breakpad/common/dwarf/bytereader.cc:140-197 | in every format, the bytes written give the offset back exactly when the format can hold it |
| EncodedPointers.PointerRoundTrip | Breakpad/common/dwarf/bytereader.cc:138-242 | for every supported encoding and target, the parser takes exactly the printed bytes and returns the address exactly when the format holds its distance from the base |
| EncodedPointers.PaddingExactly | Breakpad/common/dwarf/bytereader.cc:114-136 | there is a least number of bytes to skip to an aligned address, and it is below the address size |
| EncodedPointers.PaddingAgrees | Breakpad/common/dwarf/cfi_assembler.cc:150-151 | printer and parser skip the same bytes exactly when the section is loaded at an aligned address |
| EncodedPointers.UnalignedSectionMisreads | Breakpad/common/dwarf/cfi_assembler.cc:150-151 | a concrete aligned pointer that is read back wrong |
| EncodedPointers.AlignedRoundTrip | Breakpad/common/dwarf/bytereader.cc:114-136 | at an aligned section address, an aligned pointer is read back |
| EncodedPointers.InitialLengthRoundTrip | Breakpad/common/dwarf/bytereader.cc:65-80 | a length comes back, with its size and offset size, exactly when it is in the 64-bit format or below the escape value |
| EncodingBytes.PointerStandsFor | Breakpad/common/dwarf/bytereader.cc:151-242 | what the parser finds, told from the encoding byte: the low nibble gives width, sign and LEB128, bits 4 to 6 the base, and the pointer is their sum modulo the address space |
| EncodingBytes.PointerPrints | Breakpad/common/dwarf/cfi_assembler.cc:120-190 | what the printer appends has that form and leads from the base to the address, modulo what its bytes can hold |
| EncodingBytes.AlignedPrints | Breakpad/common/dwarf/cfi_assembler.cc:144-149 | so does an aligned pointer, without a base |
| EncodingBytes.RelativeToItsPlace | Breakpad/common/dwarf/bytereader.cc:186-191 | concrete bytes under encoding 1B, with a positive and a negative distance |
| EncodingBytes.PrintedRelativeToItsPlace | Breakpad/common/dwarf/cfi_assembler.cc:120-190 | and the bytes printed for one of them |
| ByteReader.ByteReader.ReadFixed | Breakpad/common/dwarf/bytereader-inl.h:42-85 | the number in the next 2, 4 or 8 bytes |
| ByteReader.ByteReader.ReadInitialLength | Breakpad/common/dwarf/bytereader.cc:65-80 | the 32-bit length, or the 64-bit one behind the escape value, and the offset size set to match |
| ByteReader.ByteReader.ReadOffset | Breakpad/common/dwarf/bytereader.cc:140-200 | the value in any format, and its length |
| ByteReader.ByteReader.ReadAlignedPointer | Breakpad/common/dwarf/bytereader.cc:114-136 | starts at the first position whose loaded address is a multiple of the address size; the length is between one and two address sizes |
| ByteReader.ByteReader.ReadEncodedPointer | Breakpad/common/dwarf/bytereader.cc:103-242 | the pointer that the bytes stand for under the encoding byte, and its length, for aligned and all other usable encodings |
| ByteReader.ByteReader.UsableEncoding | Breakpad/common/dwarf/bytereader.cc:92-101 | bits 4 to 6 ask for no base or for one that has been set |
| ByteReader.ValidEncodingExactly | Breakpad/common/dwarf/bytereader.cc:82-90 | accepted are the supported encodings, omit, aligned, and low nibble 8, which has no format |
| ByteReader.LowNibbleEightIsAccepted | Breakpad/common/dwarf/bytereader.cc:82-90 | an encoding that is accepted and has no format |
| ByteReader.SkipIsPadding | Breakpad/common/dwarf/bytereader.cc:121-131 | rounding up from the aligned address before the section skips the least number of bytes |
| CFISection.CFISection.Append | Breakpad/common/test_assembler.cc:204-225 | both loops append the low bytes of the number in the section's byte order |
| CFISection.CFISection.ULEB128 | Breakpad/common/test_assembler.cc:315-322 | the loop appends the encoding |
| CFISection.CFISection.LEB128 | Breakpad/common/test_assembler.cc:303-313 | the loop appends the signed encoding |
| CFISection.CFISection.Align | Breakpad/common/test_assembler.cc:324-331 | appends the least number of zero bytes that makes the size a multiple |
| CFISection.CFISection.EncodedPointer | Breakpad/common/dwarf/cfi_assembler.cc:120-190 | appends bytes that lead from the base that the encoding byte names to the address, with the width, sign and padding it asks for; nothing for an omitted pointer |
| EncodedPointerPipeline.PrintThenRead | Breakpad/common/dwarf/cfi_assembler.cc:120-190 | printing into any section and reading there takes just what was printed, and gives the address exactly when the format holds its distance from the base |
| EncodedPointerPipeline.PrintThenReadAligned | Breakpad/common/dwarf/cfi_assembler.cc:120-190 | reading an aligned pointer takes just what was printed exactly when the section is loaded at an aligned address, and then gives the address |
| ByteCursor.ByteCursor.Read | Breakpad/common/byte_cursor.h:118-143 | the number stored in the next bytes, or a dummy and a sticky failure; the cursor never passes the end |
| ByteCursor.SignedRead | Breakpad/common/byte_cursor.h:133-136 | a negative number of fewer bytes than its type keeps its value |
| ByteCursor.WrapShifted | Breakpad/common/byte_cursor.h:122-131 | wrapping in every turn of the loop gives the number modulo the type's size |
| StabsEntries.Layout.DecodeEncoded | Breakpad/common/stabs_reader.cc:58-66 | every entry that fits its fields is decoded as it was stored |
| StabsEntries.Layout.EntriesCount | Breakpad/common/stabs_reader.cc:58-66 | a section holds as many entries as fit in it whole |
| StabsEntries.DecodeByteByByte | Breakpad/common/stabs_reader.cc:58-66 | every field of an entry from its bytes, in both byte orders and value sizes |
| StabsEntries.EntryIterator.constructor | Breakpad/common/stabs_reader.cc:48-56 | the iterator starts on the first of the section's entries |
| StabsEntries.EntryIterator.Fetch | Breakpad/common/stabs_reader.cc:58-66 | five reads decode the next entry, or find the end for good when any of them fails |
| StabsProtocol.RunAccepted | Breakpad/common/stabs_reader.h:233-302 | for every section whose strings end in a zero byte, the calls are units in sequence, functions in sequence inside them, lines inside those, and nothing is left open |
| StabsProtocol.PrefixAccepted | Breakpad/common/stabs_reader.cc:93-298 | calls cut short by a refusal still obey the protocol |
| StabsProtocol.LinesReported | Breakpad/common/stabs_reader.cc:93-298 | the lines reported are the N_SLINE entries in order, minus those with no function of their unit at or after them; the strings end in a zero byte |
| StabsProtocol.StringBaseExactly | Breakpad/common/stabs_reader.cc:111-112 | the string base is that of the current unit exactly up to the second header, or when all but the last earlier unit have no strings |
| StabsProtocol.ThirdUnitIsMisplaced | Breakpad/common/stabs_reader.cc:111-112 | three concrete headers after which the base is that of no unit |
| StabsProtocol.RunInStrings | Breakpad/common/stabs_reader.cc:81-91 | every file name is taken from the string section, which ends in a zero byte |
| StabsNames.FunctionsStarted | Breakpad/common/stabs_reader.cc:221-233 | from any point in a section, the functions started are, in order, one for each N_FUN entry that starts one, at its value, under its C string up to the first colon |
| StabsNames.StartIsNamed | Breakpad/common/stabs_reader.cc:224-232 | every StartFunction call has such an entry, and its name is the entry's C string up to the first colon |
| StabsNames.WorkedSection | Breakpad/common/stabs_reader.cc:93-298 | two concrete units, from their bytes and entry codes, call by call |
| StabsReader.StabsReader.SymbolString | Breakpad/common/stabs_reader.cc:81-91 | the sum of base and offset, read as signed, or zero with a warning exactly when that lies outside the string section |
| StabsReader.StabsReader.Process | Breakpad/common/stabs_reader.cc:93-129 | terminates, makes the calls that the section means and returns true when all are accepted; otherwise stops with the first refused call |
| StabsReader.StabsReader.ProcessCompilationUnit | Breakpad/common/stabs_reader.cc:131-219 | the calls of one unit, and progress past its first entry |
| StabsReader.StabsReader.ProcessFunction | Breakpad/common/stabs_reader.cc:221-298 | the calls of one function, the queued lines first |
| Sorting.StableSort | Breakpad/common/stabs_to_module.cc:183-184 | a sorted rearrangement that keeps the order of equal keys |
| Sorting.UpperBound | Breakpad/common/stabs_to_module.cc:170-171 | the first element above the given one |
| StabsToModule.SizedFunctionsAreDisjoint | Breakpad/common/stabs_to_module.cc:158-180 | sizes are positive, functions at different addresses share no byte, and only one at the greatest boundary can be without an end |
| StabsToModule.LineSizesAddUp | Breakpad/common/stabs_to_module.cc:181-191 | line sizes add up to the distance from the first line to the function's end, modulo 2^64 |
| StabsToModule.LinesTile | Breakpad/common/stabs_to_module.cc:181-191 | lines inside their function leave no gap and do not overlap |
| StabsToModule.FindSize | Breakpad/common/stabs_to_module.cc:169-180 | the distance to the least boundary above, or 0x10000000 if there is none |
| StabsToModule.FinishLines | Breakpad/common/stabs_to_module.cc:181-191 | stably sorted lines, each ending where the next starts and the last at the end |
| StabsToModule.StabsToModule.StartCompilationUnit | Breakpad/common/stabs_to_module.cc:68-77 | opens the unit and adds its address to the boundaries |
| StabsToModule.StabsToModule.EndCompilationUnit | Breakpad/common/stabs_to_module.cc:79-88 | closes the unit and adds a known end to the boundaries |
| StabsToModule.StabsToModule.StartFunction | Breakpad/common/stabs_to_module.cc:90-101 | opens a function without lines and adds its address to the boundaries |
| StabsToModule.StabsToModule.EndFunction | Breakpad/common/stabs_to_module.cc:103-117 | keeps the function unless it lies below its unit, and adds a known end to the boundaries |
| StabsToModule.StabsToModule.Line | Breakpad/common/stabs_to_module.cc:119-133 | appends the line with the named file, although the lookup is skipped for the current name |
| StabsToModule.StabsToModule.Receive | Breakpad/common/stabs_to_module.cc:68-133 | on every sequence that obeys the protocol no handler assertion fails, and what is collected is what the calls mean |
| StabsToModule.StartsAreBoundaries | Breakpad/common/stabs_to_module.cc:90-101 | after any calls the start of every function is a boundary |
| StabsToModule.StabsToModule.Finalize | Breakpad/common/stabs_to_module.cc:158-198 | boundaries and functions sorted; every function and line sized; all functions added to the module, in order of address; the assertion there holds exactly when all have a name |
| Module.Module.FindFile | Breakpad/common/module.cc:130-151 | the file with the name, made only if there is none |
| Module.Module.AddFunction | Breakpad/common/module.cc:78-88 | asserts a name; a function whose address and name are taken is deleted, any other is owned |
| Module.Module.AddFunctions | Breakpad/common/module.cc:90-94 | the same for each in turn; no assertion fails exactly when all have a name |
| Module.InsertAllExactly | Breakpad/common/module.cc:78-94 | what the module had stays, each new address and name gets the first function that has it, and owned and deleted ones add up |
| Module.DuplicateIsDeleted | Breakpad/common/module.cc:82-87 | of two functions with one address and name the first stays and the second is deleted |
| StabsFunctions.FunctionsKept | Breakpad/common/stabs_to_module.cc:90-117 | the functions kept are, in order, those that an N_FUN entry starts at or above the address of its unit, under their demangled names |
| StabsFunctions.ExpectedExactly | Breakpad/common/stabs_reader.cc:131-298 | an address and name are among these exactly if some entry starts a function with them |
| StabsFunctions.NamelessExactly | Breakpad/common/stabs_reader.cc:221-233 | a function without a name is kept exactly if some entry starts a function at or above its unit and nothing is left of its name |
| StabsFunctions.NamelessFunctionIsKept | Breakpad/common/stabs_reader.cc:221-233 | two concrete entries, the second of which does |
| StabsPipeline.LoadStabs | Breakpad/common/linux/dump_symbols.cc:174-202 | from any entries, with strings that end in a zero byte, and into any module: reading terminates; no assertion of handler or module fails exactly when no function is started without a name; then the module has, besides what it had, one function for each address and name that the section means, with the lines of one that has them and the sizes that the boundaries give, and those at different addresses are disjoint |
| Words.ChooseBits | Breakpad/common/md5.cc:152-154 | the three-operation form of the choice between two words is the four-operation one |
| WordBits.AndIs | Breakpad/common/md5.cc:152-158 | the bit-by-bit definition of and is the operation on 32-bit vectors |
| WordBits.OrIs | Breakpad/common/md5.cc:152-158 | the same for or |
| WordBits.XorIs | Breakpad/common/md5.cc:152-158 | the same for exclusive or |
| WordBits.NotIs | Breakpad/common/md5.cc:152-158 | the same for the complement |
| WordBits.RotatedIs | Breakpad/common/md5.cc:158-160 | a shift left or-ed with one right is the rotation, for the amounts of MD5 |
| MD5Transform.CoreIsAuxiliary | Breakpad/common/md5.cc:150-156 | the four core functions are F, G, H and I of RFC 1321 |
| MD5Transform.FourSteps | Breakpad/common/md5.cc:158-160 | four central steps are four operations of a round, after which the words are back in place |
| MD5Transform.Transform | Breakpad/common/md5.cc:167-247 | the 64 unrolled steps are the block function of RFC 1321 |
| MD5.AddBitsAdds | Breakpad/common/md5.cc:67-71 | the two-word bit count with its carry grows by eight times the length, modulo 2^64 |
| MD5.WaitingBytes | Breakpad/common/md5.cc:73 | the low word tells how many bytes wait in the buffer |
| MD5.InitialBytes | Breakpad/common/md5.cc:46-55 | the initial state, low-order bytes first, is 01 23 45 67 89 AB CD EF and the same backwards |
| MD5.OutputRead | Breakpad/common/md5.cc:144-146 | reading the digest four bytes at a time gives A, B, C and D |
| MD5.MD5Context.constructor | Breakpad/common/md5.cc:46-55 | the context starts in that state, with nothing counted |
| MD5.OneLastBlock | Breakpad/common/md5.cc:125-141 | with room for the length, padding completes one block |
| MD5.TwoLastBlocks | Breakpad/common/md5.cc:125-141 | without it, padding completes two |
| MD5.MD5Context.Update | Breakpad/common/md5.cc:61-103 | the context is the fold over the whole blocks of everything given, with the rest and the bit count |
| MD5.MD5Context.Absorb | Breakpad/common/md5.cc:75-102 | filling up, whole blocks and the rest, over the buffer in place |
| MD5.MD5Context.Final | Breakpad/common/md5.cc:109-148 | the digest is that of padding and processing the whole message; the context is cleared |
| MD5.DigestOfChunks | Breakpad/common/md5.cc:46-148 | however a message is cut into updates, the digest is the message's |
| MD5Known.DigestOfAlphabet | Breakpad/common/md5.cc:109-247 | the digest of "abcdefghijklmnopqrstuvwxyz" is the one in the RFC's test suite, through padding, all 64 steps and output |
| SimpleStringDictionary.StoredHolds | Breakpad/common/simple_string_dictionary.h:185-186 | a buffer holds the string, cut to one less than its size |
| SimpleStringDictionary.StoredInPlace | Breakpad/common/simple_string_dictionary.h:185-190 | character by character: the front of the string, then NULs |
| SimpleStringDictionary.LookupExactly | Breakpad/common/simple_string_dictionary.h:238-245 | a lookup gives the map's answer exactly when the key is not empty or no entry is free |
| SimpleStringDictionary.EmptyKeyIsFound | Breakpad/common/simple_string_dictionary.h:238-245 | in a map that holds nothing, the empty key is found |
| SimpleStringDictionary.SetRefines | Breakpad/common/simple_string_dictionary.h:161-208 | storing under a key that fits updates the map with the cut value; a new key on a full map changes nothing; keys stay unique |
| SimpleStringDictionary.SetThenLookupExactly | Breakpad/common/simple_string_dictionary.h:161-208 | what was stored is found again exactly when the key fits its buffer |
| SimpleStringDictionary.SetLongKey | Breakpad/common/simple_string_dictionary.h:180-190 | a longer key is not found, and keys stay unique exactly when its cut form was not there or the map is full |
| SimpleStringDictionary.LongKeyIsLost | Breakpad/common/simple_string_dictionary.h:180-190 | a concrete key that is stored and not found |
| SimpleStringDictionary.RemoveRefines | Breakpad/common/simple_string_dictionary.h:212-226 | removing any key removes it from the map |
| SimpleStringDictionary.ContentsSize | Breakpad/common/simple_string_dictionary.h:133-141 | the map has one entry for each active entry |
| SimpleStringDictionary.OneRefines | Breakpad/common/simple_string_dictionary.h:161-226 | every call acts on a finite map of at most NumEntries keys |
| SimpleStringDictionary.ParseBytes | Breakpad/common/simple_string_dictionary.h:124-129 | deserializing the serialized entries gives the same entries |
| SimpleStringDictionary.BytesInPlace | Breakpad/common/simple_string_dictionary.h:232-235 | the bytes are entry after entry, key before value, with nothing between |
| SimpleStringDictionary.NonAllocatingMap.GetCount | Breakpad/common/simple_string_dictionary.h:133-141 | the size of the map |
| SimpleStringDictionary.NonAllocatingMap.GetValueForKey | Breakpad/common/simple_string_dictionary.h:145-155 | the map's answer |
| SimpleStringDictionary.NonAllocatingMap.SetKeyValue | Breakpad/common/simple_string_dictionary.h:161-208 | the whole array after the call, for every key and value; an entry that changes holds the value, and its key is the old one or, if it was free, the new one |
| SimpleStringDictionary.NonAllocatingMap.RemoveKey | Breakpad/common/simple_string_dictionary.h:212-226 | the whole array after the call; an entry that changes has only a NUL put first in its key and value |
| SimpleStringDictionary.NonAllocatingMap.Perform | Breakpad/common/simple_string_dictionary.h:161-226 | any run of calls with keys that fit acts on a finite map, and keys stay unique |
| SimpleStringDictionary.NonAllocatingMap.Serialize | Breakpad/common/simple_string_dictionary.h:232-235 | what it returns parses to the same entries |
| SimpleStringDictionary.MapIterator.Next | Breakpad/common/simple_string_dictionary.h:87-95 | the next active entry, or the end |
| SimpleStringDictionary.IterateAll | Breakpad/common/simple_string_dictionary.h:87-95 | iterating yields each active entry once, in order |

## Left out

- Everything under `src/`: game code over an engine whose semantics are not visible here.
- File and process I/O, the symbol file writer, the minidump writer and the crash handlers.
- What a name demangles to (a parameter), name and string pools, `Language`, register tables and call frame rules.
- Module.Module.AddFunctions: the order in which a module lists its functions, its externs, and adding the functions of a DWARF compilation unit to it are not modelled.
- StabsPipeline.LoadStabs: the string section is not empty and ends in a zero byte, as the source takes for granted when it reads a name as a C string; the same holds of every statement about STABS names.
- DwarfLineToModule.DwarfLineToModule.DefineFile: a file arrives as the object for its expanded name; resolving directories and paths, and the conversions of the file number between `uint32` and `int32`, are not modelled.
- DwarfCUToModule.DwarfCUToModule.FinishFunction: names, inlining and abstract origins are not modelled beyond the placeholder name.
- `UTF32ToUTF16`, `UTF32ToUTF16Char` and `UTF16ToUTF8`: their buffer sizes and termination have no clean contract.
- ConvertUTF.ReadUTF8: the switch cases for five and six bytes, which no accepted sequence reaches, are not there.
- StringConversion.UTF8ToUTF16: the vector's capacity is a parameter of at least the string's length.
- The DWARF reader that produces DIE events is a walk over a tree; the six ProcessAttribute functions, alike but for their value, are one.
- PageAllocator.PageAllocator.GetNPages: the linked list of page headers is a sequence of regions; the bytes of a header are not modelled, only that no block touches them.
- CIE and FDE headers and the labels of the assembler.
- ByteReader.ByteReader.ReadAlignedPointer: the position lies at or after the section's start and at least 16 bytes short of 2^64, as in any buffer.
- LEB128 numbers of more than ten bytes, on which the readers' shifts are undefined.
- Mach-O external symbols and other platform branches of the STABS reader.
- StabsReader.StabsReader.SymbolString: that a warning is issued for every misplaced name that is looked at, and for no other, is stated call by call; the number of warnings of a whole run is not.
- A STABS handler is a function of the calls made so far; its warnings return nothing.
- Sorting.Sort: the library's sorts are an insertion sort; for `std::sort` only a sorted rearrangement is promised.
- MD5 on a big-endian host; the buffer of four words is a record.
- The debug-only count of matching entries in `SetKeyValue`, and the assertion that rejects an empty key.
