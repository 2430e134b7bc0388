# A verified model of the Zowe native back end

This project models the self-contained logic of the z/OS back end (C, C++ and build scripts) in
Dafny and proves what its parts promise. Operating-system services appear as parameters: each call
is given the outcome the service has, and what is proved holds for every outcome.

| module | models |
|---|---|
| `BpamRecords`, `BpamBytes`, `BpamWriter` | packing logical records into fixed and variable blocks (`native/c/zam.c`), proved against an independent deblocking reader and the bytes it reads |
| `BpamSession`, `BpamSessionProofs` | the ENQ / RESERVE / OPEN / storage protocol around a member, audited over whole sessions |
| `AsaText`, `BpamText`, `BpamPages`, `BpamLines` | the ASA carriage-control converter, the one-shot and the streamed member writer, and what their members print (`native/c/zds.cpp`) |
| `Glob`, `Directory` | the wildcard matcher and the walk over directory blocks that uses it |
| `StreamBase64`, `Base64Bits` | one-shot and left-over encode and decode (RFC 4648, section 4), the bits they stand for, and the two stream loops |
| `Lexer`, `LexerProofs`, `LexerErrors`, `TextRuns`, `PrintedTokens` | the hand-written lexer and the printing of its tokens (`native/c/lexer.hpp`) |
| `CommandParser`, `CommandNames`, `CommandProofs`, `CommandValues`, `CommandFailures`, `CommandHandlers`, `CommandRender`, `WrittenCommands`, `CommandLine`, `CommandTexts`, `TokenRuns`, `SpelledText` | the command-line parser (`native/c/parser.hpp`), from text or arguments to the call of a handler |
| `EditDistance` | the two-row edit distance behind "did you mean" |
| `JsonText`, `JsonLayout`, `JsonTyped`, `JsonAdmits`, `JsonWrites` | escaping, indentation and typed (de)serialization (`native/c/zjson.hpp`) |
| `BuildWatch` | debounce timer, build mutex and batches of the watch mode (`scripts/buildTools.ts`) |
| `Calendar` | the logger's timestamp and the DSCB date conversion |
| `Inheritance` | the property closure of the type generator (`scripts/generateTypes.ts`) |

Classes and loops of the source are classes and loops here; each method is proved equal to a
function of its inputs, and the theorems are about those functions. Native text is bytes of code
page IBM-1047, so a character literal of the C and C++ sources stands for its IBM-1047 code.

## Where the code falls short of what it promises

Each of these is proved as an exact condition, for all inputs, over the code as it is, with a lemma
that shows a failing input.

- A variable blocked record that fills LRECL is dropped, and not counted, when BLKSIZE is exactly
  LRECL + 4, which the attribute check accepts (`BpamRecords.KeptExactly`, `FillingRecordIsLost`).
- An unblocked variable record that fills such a block makes `sprintf` put its NUL one byte behind
  the storage of the block (`BpamWriter.IoControl.WriteOutput`, `BpamRecords.FillingRecordOverruns`).
- The truncation report misses data lost at a NUL and lines that are dropped, and reports an ASA
  line that just fits, as it counts the ASA character twice (`BpamText.ReportedExactly`,
  `LossAtNulUnreported`, `DropUnreported`, `FittingAsaLineReported`).
- The streamed member writer puts overflow `-` records in front of the line it holds back, so lines
  move when three or more blank lines stand between two others
  (`BpamPages.SameOrderExactly`, `StreamedPrintsExactly`, `GapTextDiffers`). Not every such gap moves
  a line: in front of a page start it can make up for another one (`PagesMakeUp`).
- The numbers reported for an ASA text do not count its blank lines
  (`BpamPages.ReportedNumberExactly`, `SecondLineReportedAsFirst`).
- For every name that holds a `*` there is a pattern whose match the scan misses
  (`Glob.ScanExactlyOnNamesWithoutStar`, `MissesAMatch`).
- Day 60 of a leap year is labelled 0 March (`Calendar.LabelDateExactly`, `LeapDayOfLabel`).
- DEQ of the ENQ follows a failed DEQ of the RESERVE, and RESERVE is given up although CLOSE left
  the DCB open (`BpamSessionProofs.SessionNestsExactly`, `EnqGivenUpFirst`, `ReserveGivenUpOpen`).
- The stream decoder ignores the characters of an unfinished last group, which the one-shot decoder
  rejects (`StreamBase64.StreamedAsWholeExactly`, `TrailingCharacterIgnored`).
- Integer literals of more than 127 retained characters silently lose digits
  (`LexerProofs.DecimalTokenExactly`, `PrefixedTokenExactly`, `LastDigitLost`).
- `Token::print` has no text for `*`, `-` and `--` and writes the number of their kind, and a literal
  loses the characters that are not printable (`PrintedTokens.PrintsBackExactly`,
  `ControlCharacterLost`). What a command line given as one text passes through is printed, so
  `-- *` does not hand a `*` to the handler (`CommandTexts.LinePassthroughExactly`, `StarIsLost`).
- An argument that looks like a number reaches an option that wants strings as the number is
  printed, `007` as `7` (`CommandTexts.StringArgumentExactly`, `LeadingZerosLost`).
- A positional argument of type Flag, which only `register_argument` lets through, makes the main
  loop stand still (`CommandParser.StandsStillExactly`, `FlagPositionalNeverEnds`).
- A full optional around a null value, such as an RPC result that is an explicit null, comes back
  empty, and a skipped, defaulted or very large unsigned value may come back as another
  (`JsonTyped.RoundTripExactly`, `NullResultIsLost`, `SkippedBecomesDefault`).

## Model

| member | source | states |
|---|---|---|
| BpamRecords.ValidateDcb | native/c/zam.c:207-251 | accepted attributes leave room for a block descriptor, or divide the block evenly |
| BpamRecords.RemIsModulo | native/c/zam.c:233-240 | the remainder used by the attribute check is the modulo operator |
| BpamRecords.CutAtNul | native/c/zam.c:624-632 | `%.*s` keeps the text up to its first NUL and nothing behind it |
| BpamRecords.Record | native/c/zam.c:674-704 | a record never exceeds LRECL, is exactly LRECL if fixed, and leaves room for its RDW if variable |
| BpamRecords.UnsegmentSegments | native/c/zam.c:624-632 | reading any chain of RDW-prefixed records gives the records |
| BpamRecords.SplitFlatten | native/c/zam.c:536-573 | reading any fixed block gives its records |
| BpamRecords.FixedBlock | native/c/zam.c:536-573 | a written fixed block reads back as the pending records |
| BpamRecords.VariableBlock | native/c/zam.c:575-622 | a block whose BDW holds its length reads back as the pending records |
| BpamRecords.FixedBufferGrows | native/c/zam.c:536-573 | one more record keeps the buffer a whole number of records within the block |
| BpamRecords.VariableBufferGrows | native/c/zam.c:624-632 | one more segment keeps the buffer a descriptor followed by segments |
| BpamRecords.KeptExactly | native/c/zam.c:634-672 | a line is lost if and only if the format is variable blocked, BLKSIZE is LRECL + 4 and the line fills the record |
| BpamRecords.NothingLostExactly | native/c/zam.c:634-672 | all records survive if and only if no line meets that condition |
| BpamRecords.FillingRecordIsLost | native/c/zam.c:634-672 | a concrete format and line that are lost |
| BpamRecords.FillingRecordOverruns | native/c/zam.c:624-632 | a concrete unblocked format and lines whose NUL goes behind the storage of the block |
| BpamBytes.RecordExactly | native/c/zam.c:674-704 | a fixed record is the line cut to LRECL and filled with blanks, byte by byte; a variable one the longest start of the line without a NUL that leaves room for its descriptor |
| BpamBytes.DeblockExactly | native/c/zam.c:575-632 | a reader finds these records in a block if and only if its bytes are big-endian descriptors and the records behind them, or the fixed records one behind the other |
| BpamBytes.DeblockedAreBlocks | native/c/zam.c:536-632 | the records read from a member are those its blocks hold, block by block |
| BpamBytes.AcceptedExactly | native/c/zam.c:207-251 | which attributes the check accepts and which fault it finds with all others |
| BpamRecords.PackedNext | native/c/zam.c:554-672 | a block that is written is full: a fixed one has BLKSIZE bytes, and a blocked variable one not a byte to spare behind the line that came next |
| BpamWriter.IoControl.WriteSync | native/c/zam.c:1361-1372 | one write appends exactly DCBBLKSI bytes of the buffer to the data set, or nothing |
| BpamWriter.IoControl.HandleFixedRecord | native/c/zam.c:536-573 | on success the readable records grow by the cut and padded line; a full block is written and the buffer reset |
| BpamWriter.IoControl.InitBdw | native/c/zam.c:575-585 | a new block gets four descriptor bytes, a started one stays as it is |
| BpamWriter.IoControl.WriteVariableRecord | native/c/zam.c:587-622 | the block is written with its own length in the BDW, DCBBLKSI is restored, and no record is lost |
| BpamWriter.IoControl.CopyVariableRecord | native/c/zam.c:624-632 | the data up to its first NUL is appended behind a correct RDW and counted; the NUL goes behind the storage if and only if the record ends with the block |
| BpamWriter.IoControl.HandleVariableRecord | native/c/zam.c:634-672 | on success the readable records grow by the line unless it does not fit an empty block; a byte goes behind the storage if and only if an unblocked record fills the block |
| BpamWriter.IoControl.WriteOutput | native/c/zam.c:674-704 | for every format the readable records grow by the line cut to LRECL, the invariants hold after every outcome, and the storage is overrun if and only if an unblocked variable record fills a block of LRECL + 4 |
| BpamWriter.IoControl.WriteFlush | native/c/zam.c:706-750 | afterwards everything readable has been written, and DCBBLKSI is what it was |
| BpamWriter.IoControl.WriteMember | native/c/zam.c:536-750 | deblocking everything written gives exactly the kept records in order, every block fits BLKSIZE, and lines_written counts them, and a block is written only when the line that came next filled it or no longer fitted |
| BpamSession.IoControl.OpenOutput | native/c/zam.c:433-534 | the services issued and the control block left behind are those of the first failing step |
| BpamSession.IoControl.FinalizeDcb | native/c/zam.c:1006-1045 | returns the first non-zero code of its steps, issues BLDL, STOW exactly if that and the user look-up went well, and always CLOSE |
| BpamSession.IoControl.CloseOutput | native/c/zam.c:1048-1116 | issues each release once, in order, and returns the first non-zero code |
| BpamSession.FirstOfSteps | native/c/zam.c:1048-1116 | the code the close returns, from the answers of the services: -1, or the code of BLDL other than 0 and 4, STOW, CLOSE, DEQ RESERVE or DEQ, whichever step failed first |
| BpamSession.CloseSucceedsExactly | native/c/zam.c:1048-1116 | the close returns 0 if and only if nothing abended and all services it issued answered 0, BLDL 0 or 4 |
| BpamSession.StowExactly | native/c/zam.c:1006-1033 | STOW is issued if and only if the DCB is still open, BLDL answers 0 or 4 and the user is known |
| BpamSession.OpenSucceedsExactly | native/c/zam.c:433-534 | the open succeeds if and only if every step does, and has then issued ENQ, RESERVE and OPEN in this order and obtained the buffer |
| BpamSession.OpenIssuesExactly | native/c/zam.c:433-534 | each service of the open is issued if and only if all steps before it have succeeded |
| BpamSession.OpenForCaller | native/c/zdsm.c:237-258 | a failed open is closed at once and leaves no handle |
| BpamSessionProofs.SessionBalances | native/c/zam.c:433-534 | for every outcome of the services storage is freed once and ENQ and RESERVE are released once, exactly if they had been granted |
| BpamSessionProofs.SessionNestsExactly | native/c/zam.c:1048-1116 | "DCB open implies RESERVE held implies ENQ held" survives a session if and only if CLOSE really closed before RESERVE is given up and a failed DEQ RESERVE is not followed by a successful DEQ |
| BpamSessionProofs.EnqGivenUpFirst | native/c/zam.c:1048-1116 | a concrete session that gives up ENQ although RESERVE is still held |
| BpamSessionProofs.ReserveGivenUpOpen | native/c/zam.c:1048-1116 | a concrete session that gives up RESERVE with the DCB open |
| BpamSessionProofs.NewMemberIsStowed | native/c/zam.c:787-796 | a new member, for which BLDL answers 4: statistics are written and the close returns 0 |
| AsaText.AsaStreamState.PrepareLine | native/c/zds.cpp:1109-1230 | the record character, the overflow count and the blank count after one line |
| AsaText.BehindByBlankRowsOnly | native/c/zds.cpp:1109-1230 | the printer is on the page of the source and behind it only by the blank lines still being counted |
| AsaText.PrintsWhereTheSourceHasIt | native/c/zds.cpp:1109-1230 | every non-blank line is printed on its page and row, for any number of blank lines |
| BpamText.LinesOfConcatenation | native/c/zds.cpp:3980-4127 | splitting a text chunk by chunk with the tail carried over gives the lines of the whole |
| BpamText.OneShot | native/c/zds.cpp:1412-1578 | the records written and the lines reported are those of the line-by-line specification |
| BpamText.Streamed | native/c/zds.cpp:3911-4135 | for every cut into chunks, the records written and the lines reported are those of the whole text |
| BpamText.StreamedAgainstOneShot | native/c/zds.cpp:4008-4045 | the two writers emit the same records up to order, and in the same order if and only if no overflow record arises behind a held line |
| BpamText.SameRecordsExactly | native/c/zds.cpp:4008-4045 | the same for any list of collected items |
| BpamText.ReportedExactly | native/c/zds.cpp:560-574 | a line is reported as truncated if and only if the record writer drops it or some of its bytes, unless exactly one of these holds: data is lost at a NUL or as a filling record, or an ASA line just fits |
| BpamText.LossAtNulUnreported | native/c/zds.cpp:1489-1500 | a concrete line that loses everything at a NUL and is not reported |
| BpamText.DropUnreported | native/c/zds.cpp:1489-1500 | any line of 80 characters, dropped at LRECL 84 and BLKSIZE 88, is not reported |
| BpamText.FittingAsaLineReported | native/c/zds.cpp:560-574 | any ASA line of 79 characters fits LRECL 80 and is reported |
| BpamText.WriteText | native/c/zds.cpp:1412-1578 | deblocking what the block writer wrote for a text gives the records of its lines |
| BpamLines.LogicalLinesOfTyped | native/c/zds.cpp:1452-1475 | whatever endings lines are written with, newline or carriage return and newline, the text has these lines |
| BpamLines.PlainLinesAreWritten | native/c/zds.cpp:1412-1578 | without control characters both writers write exactly the lines of the text, in order, and report exactly those that are too long, for every choice of endings |
| BpamLines.WindowsLine | native/c/zds.cpp:1465-1469 | a character, a carriage return and a newline are the record of that character |
| BpamLines.DocumentIsPrinted | native/c/zds.cpp:1412-1578 | a document of pages and rows, typed with either ending: the printer puts every text on the page and row it has in the document |
| BpamPages.OneShotPrintsTheText | native/c/zds.cpp:1455-1570 | what an ASA member prints is the text: every non-blank line on its page and row |
| BpamPages.ItemsOfText | native/c/zds.cpp:1455-1570 | the records collected are the non-blank lines, with the blank lines in front of each and its page start |
| BpamPages.HeadItem | native/c/zds.cpp:1109-1230 | the k-th record stands for the k-th non-blank line, its overflow records for the blank lines in front of it |
| BpamPages.SameOrderExactly | native/c/zds.cpp:4008-4045 | the two writers of an ASA text write the same records in the same order if and only if no three blank lines stand between two non-blank ones |
| BpamPages.StreamedPrintsExactly | native/c/zds.cpp:3980-4127 | a streamed ASA member prints every non-blank line on its page and row if and only if each line that starts no page has as many overflow records behind it as the first line of its page has in front |
| BpamPages.WithoutFormFeeds | native/c/zds.cpp:3980-4127 | in a text without form feeds, if and only if there is no such gap |
| BpamPages.InOrderStays | native/c/zds.cpp:3980-4127 | without late overflow records nothing moves |
| BpamPages.GapTextDiffers | native/c/zds.cpp:4008-4045 | a concrete text and what the two writers make of it |
| BpamPages.PagesMakeUp | native/c/zds.cpp:4008-4045 | a concrete text with long gaps that prints right all the same |
| BpamPages.ReportedNumberExactly | native/c/zds.cpp:1484-1500 | a reported number counts the non-blank lines, and is the number of the line in the text if and only if no blank line comes before it |
| BpamPages.SecondLineReportedAsFirst | native/c/zds.cpp:1484-1500 | a concrete text whose second line is reported as line 1 |
| Glob.IsMatch | native/c/zds.cpp:2271-2313 | the loop terminates and computes the scan with backtracking to the last star |
| Glob.ScanIsSound | native/c/zds.cpp:2271-2313 | whatever the scan accepts matches the meaning of `*` and `?` |
| Glob.ScanIsComplete | native/c/zds.cpp:2271-2313 | every match is found if the name holds no `*` |
| Glob.ScanExactlyOnNamesWithoutStar | native/c/zds.cpp:2271-2313 | scan and meaning agree on all patterns if and only if the name holds no `*` |
| Glob.AcceptsExactly | native/c/zds.cpp:2271-2313 | a text is accepted if and only if it divides into a piece for each character of the pattern |
| Directory.ListMembers | native/c/zds.cpp:2361-2457 | for any well-formed directory blocks the listing is the matching members in order, cut to the limit, with the warning if and only if more matched |
| Directory.WalkBlock | native/c/zds.cpp:2361-2457 | the walk over one block visits exactly its encoded entries |
| Directory.SelectedMeansAccepted | native/c/zds.cpp:2395-2405 | a member is selected exactly when its name matches the pattern |
| Directory.ListedAtPlaces | native/c/zds.cpp:2361-2457 | the listing holds the names of the selected members, each once and in the order of the directory |
| Directory.PaddedNameText | native/c/zds.cpp:2384-2394 | a name stored blank padded is read back without its padding |
| StreamBase64.BuildDecodeTable | native/c/zbase64.h:34-98 | the table inverts the alphabet and marks everything else invalid |
| StreamBase64.Encode | native/c/zbase64.h:142-205 | the unrolled loop computes the encoding defined group by group |
| StreamBase64.Decode | native/c/zbase64.h:235-308 | the loop computes the decoding defined quad by quad, its errors included |
| StreamBase64.DecodeEncoded | native/c/zbase64.h:142-308 | decoding an encoding gives the bytes back |
| Base64Bits.EncodedIsBase64 | native/c/zbase64.h:142-205 | the encoding is the bits of the bytes, six at a time a character of the alphabet, zeros to fill the last one, and `=` to a multiple of four |
| Base64Bits.DecodesExactly | native/c/zbase64.h:235-308 | for any text: the bytes its bits stand for, the complaint about its length, or the one about a character that may not stand where it does, each if and only if |
| StreamBase64.Carry.EncodeChunk | native/c/zbase64.h:207-225 | encodes the whole groups of carry and input and keeps the rest |
| StreamBase64.Carry.DecodeChunk | native/c/zbase64.h:310-328 | decodes the whole quads of carry and input and keeps the rest |
| StreamBase64.Carry.StoreLeftover | native/c/zbase64.h:125-139 | keeps exactly the bytes behind the last whole group |
| StreamBase64.EncodeAnyChunks | native/c/zbase64.h:207-225 | for every chunking the pieces and the final carry are the one-shot encoding |
| StreamBase64.DecodeAnyChunksOfEncoded | native/c/zbase64.h:310-328 | for every chunking of an encoding the decoder returns the bytes and an empty carry |
| StreamBase64.DecodeFailureStays | native/c/zbase64.h:310-328 | no later chunk repairs a failed decode |
| StreamBase64.ReadStreamed | native/c/zds.cpp:3675-3736 | what goes to the pipe is the encoding of all bytes read, and content_len counts them |
| StreamBase64.WriteStreamed | native/c/zds.cpp:3810-3859 | what arrives is what was sent, with its length, for every chunking of the pipe; of any pipe it is the decoding of its whole groups |
| StreamBase64.StreamedAsWholeExactly | native/c/zds.cpp:3810-3859 | that is what the decoder makes of the whole text if and only if no group is left unfinished |
| StreamBase64.TrailingCharacterIgnored | native/c/zds.cpp:3810-3859 | one character behind any encoding is not noticed |
| EditDistance.Levenshtein | native/c/parser.hpp:36-62 | the two rows compute the distance |
| EditDistance.NoScriptIsCheaper | native/c/parser.hpp:36-62 | every edit script costs at least the distance |
| EditDistance.ShortestScript | native/c/parser.hpp:36-62 | some edit script costs just the distance |
| EditDistance.ZeroExactlyWhenEqual | native/c/parser.hpp:36-62 | the distance is zero if and only if the strings are equal |
| EditDistance.Symmetric | native/c/parser.hpp:36-62 | the distance is symmetric |
| EditDistance.TriangleInequality | native/c/parser.hpp:36-62 | a detour is never shorter |
| Lexer.InputIter.Next | native/c/lexer.hpp:112-130 | position, line and column stay those of the characters passed |
| Lexer.EatWhitespaceAndComments | native/c/lexer.hpp:1016-1047 | stops at the end of the gap |
| Lexer.LexString | native/c/lexer.hpp:1152-1223 | the literal up to its closing quote, or the error and its location |
| Lexer.StoreDigits | native/c/lexer.hpp:1280-1291 | consumes the run of digits and keeps of it, underscores left out, what fits 127 characters |
| Lexer.LexNumber | native/c/lexer.hpp:1226-1422 | prefix, digits, fraction and exponent as specified, with every error |
| Lexer.LexDash | native/c/lexer.hpp:1066-1088 | short flag, long flag, `--` or `-` |
| Lexer.LexIdentifierOrKeyword | native/c/lexer.hpp:1120-1148 | the longest word; `true` and `false` are keywords |
| Lexer.LexToken | native/c/lexer.hpp:1050-1117 | the token or error specified for the position |
| Lexer.LexAll | native/c/lexer.hpp:1000-1013 | terminates with all tokens, or the first error |
| Lexer.GetStrLitValue | native/c/lexer.hpp:618-683 | the loop computes the literal's value |
| LexerProofs.TokenizationTiles | native/c/lexer.hpp:1000-1117 | spans increase and are disjoint, only whitespace and comments lie between them, the last token ends at the first NUL, every token is spelled by its span, and no word or flag stops early |
| LexerProofs.TokensTile | native/c/lexer.hpp:1000-1117 | the tiling from any position on |
| LexerProofs.TokensSpell | native/c/lexer.hpp:1050-1117 | the spelling from any position on |
| LexerProofs.QuotedLexesBack | native/c/lexer.hpp:1152-1223 | any string written with the six escapes lexes, anywhere, to one literal with that string as its value |
| LexerProofs.QuotedTokenizes | native/c/lexer.hpp:1152-1223 | alone it is one token and the end |
| LexerProofs.ValueIsPlaceValue | native/c/lexer.hpp:1402-1421 | accumulating digits gives the place-value sum |
| LexerProofs.DecimalLexes | native/c/lexer.hpp:1226-1422 | a run of decimal digits lexes to the value of those digits that fit, or is out of range |
| LexerProofs.PrefixedLexes | native/c/lexer.hpp:1237-1275 | the same for hexadecimal and binary literals |
| LexerProofs.IntegerExactly | native/c/lexer.hpp:1233-1290 | value or rejection are those of all digits if and only if all fit, or those that fit are out of range, or all are zeros |
| LexerProofs.DecimalTokenExactly | native/c/lexer.hpp:1233-1290 | the token of a decimal literal is that of all its digits if and only if that condition holds |
| LexerProofs.PrefixedTokenExactly | native/c/lexer.hpp:1237-1290 | the same for hexadecimal and binary literals |
| LexerProofs.LastDigitLost | native/c/lexer.hpp:1233-1290 | a one behind 127 zeros is lexed as zero |
| LexerProofs.PrintedIntegerLexesBack | native/c/lexer.hpp:842-872 | a printed integer token lexes back to the same value and radix |
| LexerProofs.PrintedLiteralExactly | native/c/lexer.hpp:788-839 | a printed string literal keeps its value if and only if its plain characters are printable, tabs or carriage returns |
| LexerErrors.TextRejectedExactly | native/c/lexer.hpp:1000-1013 | a text is rejected with an error if and only if a place its tokens lead to has that fault |
| LexerErrors.TokenRejectedExactly | native/c/lexer.hpp:1050-1117 | why no token starts at a place: the fault of a literal, a number or a character |
| LexerErrors.StringRejectedExactly | native/c/lexer.hpp:1152-1223 | a literal is rejected if and only if it reaches an end, a newline, or a backslash before one of these or before no escape, with the location of that |
| LexerErrors.NumberRejectedExactly | native/c/lexer.hpp:1226-1422 | which numbers are rejected, with which error and where |
| LexerErrors.LocationExactly | native/c/lexer.hpp:112-130 | the line counts the newlines in front, the column the characters since the last one, tabs as four |
| LexerErrors.EscapeMeans | native/c/lexer.hpp:618-683 | what each escape of a literal stands for |
| LexerErrors.ClassesExactly | native/c/lexer.hpp:950-998 | which characters words, flags, comments and gaps are made of |
| LexerErrors.DigitsExactly | native/c/lexer.hpp:842-872 | the digits of each base in either case and what they count for |
| PrintedTokens.PrintsBackExactly | native/c/lexer.hpp:686-872 | any token but a float, as the lexer makes it, prints to a text of one token with its value if and only if it is neither `-`, `--`, `*` nor a literal with characters that are not printable |
| PrintedTokens.TokensPrintBackExactly | native/c/lexer.hpp:686-872 | the same of every token of every text |
| PrintedTokens.ControlCharacterLost | native/c/lexer.hpp:788-839 | a concrete literal that does not survive |
| PrintedTokens.PrintedAsWrittenExactly | native/c/lexer.hpp:842-872 | an integer token prints as it was written if and only if that was canonical: small letters, no underscore, no needless zero, nothing around it |
| PrintedTokens.CanonicalIsInBase | native/c/lexer.hpp:842-872 | canonical digits are the only ones for their value |
| CommandParser.FindKeywordArg | native/c/parser.hpp:807-844 | the first non-positional argument whose name or alias the flag is |
| CommandNames.FlagLeadsExactly | native/c/parser.hpp:807-843 | a flag leads to the first argument whose name or alias it is, and to none if and only if there is none |
| CommandParser.FindSubcommand | native/c/parser.hpp:1613-1648 | a name beats an alias; an alias of two is ambiguous |
| CommandNames.WordEntersExactly | native/c/parser.hpp:1613-1662 | a word enters the subcommand of that name, or else the only one with that alias, and is unknown if and only if it is neither of any |
| CommandParser.CollectStrings | native/c/parser.hpp:1373-1386 | takes exactly the run of tokens that can be values |
| CommandParser.CombinedFlags | native/c/parser.hpp:1259-1306 | each letter in turn, stopping at the first that is unknown, help, or wants a value |
| CommandParser.TakeOption | native/c/parser.hpp:1476-1600 | the values of a declared option, or the failure |
| CommandParser.TakeDynamic | native/c/parser.hpp:1316-1408 | the values of an undeclared option, or the failure |
| CommandParser.TakePositional | native/c/parser.hpp:1711-1799 | the values of the next positional, or the failure |
| CommandParser.ConflictsOf | native/c/parser.hpp:1843-1863 | all seen arguments of which one declares a conflict |
| CommandParser.StepAdvances | native/c/parser.hpp:1214-1800 | every turn that goes on consumes a token, so parsing terminates |
| CommandParser.StandsStillExactly | native/c/parser.hpp:1711-1799 | for any command, a turn goes on without taking a token if and only if the token reaches a positional of type Flag and can be its value; the state is then the same |
| CommandParser.FlagPositionalNeverEnds | native/c/parser.hpp:1711-1799 | a concrete command whose loop is in the same state after any number of turns |
| CommandParser.Session.ParseCommand | native/c/parser.hpp:1182-1922 | the outcome is the specified one, and the handlers called are those it names: none or one |
| CommandProofs.ParseIsSound | native/c/parser.hpp:1182-1922 | success has consumed every token; a handler runs exactly on success of its own command, below the root, with everything required present and no two seen options in conflict in either direction |
| CommandProofs.ParseAccounts | native/c/parser.hpp:1214-1600 | the options seen are exactly those the command's own flag tokens name, and what is passed through is exactly what follows the first `--` |
| CommandProofs.StepTakesOneFlag | native/c/parser.hpp:1222-1800 | no value loop takes a flag or the delimiter |
| CommandProofs.TokenizeArguments | native/c/parser.hpp:1984-2104 | one token for each argument, raw behind the first `--` |
| CommandProofs.PassthroughVerbatim | native/c/parser.hpp:1973-2133 | on success the arguments behind the first `--` are passed through verbatim and in order |
| CommandValues.ParsedValues | native/c/parser.hpp:1182-1922 | options seen and positionals filled hold values of their kind, all others their defaults |
| CommandHandlers.HandlerIsCalledWith | native/c/parser.hpp:1887-1902 | every handler is called with the parsed values, the dynamic ones over them and nothing else, what is passed through, and the path of the commands whose words lead to it |
| CommandHandlers.HandlerFindsAll | native/c/parser.hpp:1182-1902 | a handler finds a value for each declared argument, of its kind if it was given and its default if not; only a positional can be hidden by a dynamic option |
| CommandFailures.TurnStopsExactly | native/c/parser.hpp:1214-1799 | when a turn ends the parse, and with which failure or with help, for every command, token and state |
| CommandFailures.FinishSays | native/c/parser.hpp:1802-1918 | the checks behind the loop: the first missing option, the first missing positional, all conflicting pairs, help or success |
| CommandFailures.ParseEnds | native/c/parser.hpp:1182-1922 | every parse ends with a turn that stops it or with those checks, of the command it has come to |
| CommandRender.ItemIsTaken | native/c/parser.hpp:1214-1799 | a positional, an option, a group of letters or an undeclared option, with its words, is one turn that takes exactly these tokens |
| WrittenCommands.HoldsNext | native/c/parser.hpp:1214-1799 | after each item the parser holds what was written so far, and nothing else |
| WrittenCommands.WrittenRunsHandler | native/c/parser.hpp:1182-1922 | from what is written to the call: the handler runs if and only if everything required is given and nothing conflicts, with exactly the values that were written and the path of its command |
| CommandLine.WrittenLineRunsHandler | native/c/parser.hpp:2141-2195 | the same from text: subcommands, options, numbers, words and quoted texts of any characters |
| CommandLine.ArgumentsRunHandler | native/c/parser.hpp:1973-2133 | the same from arguments, with those behind `--` passed through verbatim |
| CommandLine.NothingLeftOver | native/c/parser.hpp:2119-2131 | the "unexpected arguments" branches of both entry points are unreachable |
| CommandTexts.StringArgumentExactly | native/c/parser.hpp:2031-2104 | an argument taken as a string is verbatim if and only if the lexer makes no literal of it, or one that prints as it is written |
| CommandTexts.LeadingZerosLost | native/c/parser.hpp:865-915 | `007` is passed on as `7` |
| CommandTexts.LinePassthroughExactly | native/c/parser.hpp:1236-1247 | on success a command line passes through the printed tokens behind its first `--`, and all of them lex back if and only if each token survives printing |
| CommandTexts.StarIsLost | native/c/parser.hpp:1236-1247 | `-- *` hands the number of a token kind to the handler |
| JsonText.EscapeString | native/c/zjson.hpp:1315-1360 | the loop computes the escaped text |
| JsonText.UnescapeString | native/c/zjson.hpp:1363-1440 | the loop computes the unescaped text, malformed escapes included |
| JsonText.UnescapeEscape | native/c/zjson.hpp:1315-1440 | unescape after escape is the identity on every byte string |
| JsonText.EscapedStaysInside | native/c/zjson.hpp:1315-1360 | an escaped text never ends the string it stands in and holds no control byte |
| JsonLayout.EscapedExactly | native/c/zjson.hpp:1315-1360 | the escape of every character, in the bytes of the output |
| JsonLayout.ShortEscapeMeans | native/c/zjson.hpp:1363-1440 | what each escape of two characters stands for, and that unknown ones stay |
| JsonLayout.HexEscapeMeans | native/c/zjson.hpp:1395-1420 | `\u` and four hexadecimal digits are the character of that number, or stay where it does not fit one |
| JsonLayout.ShortHexStays | native/c/zjson.hpp:1395-1425 | `\u` with fewer than four characters behind it stays as it is |
| JsonLayout.PlainMeansItself | native/c/zjson.hpp:1433-1437 | any other character stands for itself |
| JsonText.AddIndentation | native/c/zjson.hpp:1737-1803 | the loop computes the indented text |
| JsonText.IndentKeepsText | native/c/zjson.hpp:1737-1803 | dropping whitespace outside strings gives the same before and after indenting |
| JsonLayout.IndentedIsLayout | native/c/zjson.hpp:1737-1803 | every bracket, comma, colon and string is laid out with the depth it stands at |
| JsonText.IndentSucceedsExactly | native/c/zjson.hpp:1737-1803 | with a width above zero indentation succeeds if and only if no bracket closes below zero |
| JsonText.NoWidthSucceeds | native/c/zjson.hpp:1737-1803 | with a width of zero indentation always succeeds |
| JsonTyped.RoundTripExactly | native/c/zjson.hpp:811-1160 | deserializing a serialized value gives it back if and only if it is faithful, for all types with vectors, optionals and structs, and with renamed, skipped, defaulted and flattened fields |
| JsonTyped.FieldsRoundTrip | native/c/zjson.hpp:2293-2390 | the same for the fields of a struct inside any larger object |
| JsonTyped.SerializeSucceeds | native/c/zjson.hpp:2293-2333 | flattening never collides when names are distinct |
| JsonTyped.DeserializedHasType | native/c/zjson.hpp:836-1160 | whatever the JSON, a success is a value of the type: integers never wrap around |
| JsonAdmits.DeserializesExactly | native/c/zjson.hpp:836-1160 | for every type and JSON value: success if and only if the type admits it, with exactly the value it means, and otherwise its error |
| JsonAdmits.KnownExactly | native/c/zjson.hpp:2434-2497 | names are refused if and only if no field has them and none is flattened |
| JsonWrites.WritesEveryValue | native/c/zjson.hpp:811-1160 | every value is written as itself, a struct with one member for each field that is not left out and none too many |
| JsonTyped.DoubleExactly | native/c/zjson.hpp:451-461 | an unsigned number above 2^63-1 survives if and only if a double holds it |
| JsonTyped.NullResultIsLost | native/c/zjson.hpp:1118-1160 | an optional that holds null comes back empty |
| JsonTyped.SkippedBecomesDefault | native/c/zjson.hpp:2293-2372 | a skipped empty optional comes back as the default |
| BuildWatch.WatchUtils.Start | scripts/buildTools.ts:180-230 | the state the watcher starts in |
| BuildWatch.WatchUtils.OnFileEvent | scripts/buildTools.ts:205-227 | records the change and arms the timer anew |
| BuildWatch.WatchUtils.AfterWait | scripts/buildTools.ts:232-280 | takes all pending changes as one batch, or leaves when there are none |
| BuildWatch.AlwaysScheduled | scripts/buildTools.ts:232-280 | in every reachable state at most one batch runs and pending changes always have a timer, a waiter or a call about to take them |
| BuildWatch.FileEventIsTaken | scripts/buildTools.ts:205-222 | a file event is recorded, is pending under its path with its kind, and leaves the timer armed |
| BuildWatch.LogIsHistory | scripts/buildTools.ts:180-222 | in every run the changes recorded are those at the start and those of the file events, in order |
| BuildWatch.EveryChangeInOneBatch | scripts/buildTools.ts:205-280 | each recorded change enters exactly one batch, with the last kind seen for its path, or is still pending |
| BuildWatch.EveryFileEventInOneBatch | scripts/buildTools.ts:205-280 | each file event of a run enters exactly one batch, with the last kind seen for its path, or is still pending |
| BuildWatch.AtRestAllTaken | scripts/buildTools.ts:205-280 | once the watcher is at rest, every change of the run is in exactly one batch, under its last kind there |
| BuildWatch.BatchesHoldOnlyChanges | scripts/buildTools.ts:232-280 | a batch holds nothing that was not recorded for it |
| BuildWatch.Settles | scripts/buildTools.ts:205-280 | without new events every run comes to rest with nothing pending |
| Calendar.DateOfDays | native/c/zlogger_metal.c:128-185 | the loops give the valid date whose day number is the count |
| Calendar.DayNumberIsInjective | native/c/zlogger_metal.c:128-185 | no other date has that day number |
| Calendar.Clamp | native/c/zlogger_metal.c:173-182 | the clamps change nothing that is in range |
| Calendar.LoggerTime | native/c/zlogger_metal.c:104-195 | date and time of day add up to the seconds of the clock value |
| Calendar.EpochDifference | native/c/zlogger_metal.c:76-98 | the constant is the length of the 70 years from 1900 |
| Calendar.LoadDate | native/c/zds.cpp:2635-2687 | the date given for every field, and when none is given |
| Calendar.LabelDateExactly | native/c/zds.cpp:2665-2681 | the date matches the day of the year if and only if it is not day 60 of a leap year |
| Calendar.LeapDayOfLabel | native/c/zds.cpp:2665-2681 | the concrete wrong label of 29 February 2024 |
| Inheritance.CollectAllProperties | scripts/generateTypes.ts:177-209 | terminates on any graph, lists no name twice, covers exactly the names declared in reachable interfaces, and lists the interface's own properties last |
| Inheritance.Collector.CollectFromBase | scripts/generateTypes.ts:177-209 | after a visit everything reachable from there is finished or still on the way |
| Inheritance.StrippedIsLastPart | scripts/generateTypes.ts:36-38 | what is left of a name is its end behind the last dot, or the whole name |

## Left out

- Floating point: what strtod makes of a literal, and how it is printed, is a parameter of the
  lexer; doubles of JSON values are real numbers, and only the rounding of unsigned 64-bit
  integers to binary64 is modelled. Casts that C++ leaves undefined (a double of 2^63 to a signed
  or of 2^64 to an unsigned integer) count as errors.
- What the byte behind the storage of a block overwrites: the overrun is recorded, and the rest of the
  write goes on as if it had not happened.
- Failing services: a write that fails is taken to leave the data set as it was, and abend exits
  are outcomes of the service.
- Formats that cannot occur: RECFM=U is turned away by native/c/zds.cpp:1586 before the writer is
  called; an LRECL below 4 of a variable format, and an LRECL of 0, are not modelled.
- The statistics kept in the directory entry (BLDL, STOW user data) beyond their return codes.
- Code page conversion: text is written as it is; iconv and its state are not part of this model.
- The upper-casing of the member pattern before the directory walk.
- Error texts, help texts and the suggestions in messages, apart from the edit distance itself.
- The exit code of a handler, the dynamic mark on values, and the lookups of values after a parse.
- Help flags are told by their mark; that ensure_help_argument adds one is not modelled.
- An interface of the JSON parser services: parsing JSON text into values is done by the operating
  system; values start as trees.
- The case transformation of the names of struct fields (`RenameAll`): a field is given with its serialized name.
- The order of members in an unordered map, which decides only which unknown field is named.
- The closing of the watcher, uploads and builds themselves, and the watch user interface.
- The mapping of TypeScript types to validators, and file handling of the scripts.
- Dataset allocation, job, console and USS services, SFTP and SSH: calls into foreign services.
