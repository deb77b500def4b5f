# A model of the teaching kernel and its user programs

These Dafny modules model the parts of the kernel and of its user programs that compute something:
reading files through block lists, the programs that print and search them, the text screen and its
three virtual terminals, the keyboard, the blinking-character driver and the animation built on it,
address translation, process slots and descriptor tables, and the loops that print numbers and cut
command lines. `dafny verify dfyconfig.toml` checks the whole project.

## How the model is built

The C and assembly code changes memory step by step, so it is modelled by methods with loops over
arrays and by classes whose methods update their fields. Each such method is proved against a
function or a predicate on values (modules named `...Spec`, `Screen`, `Terminals`, `TextLines`,
`Stream`, `Frames`, and the functions at the top of the others). What the code is for is then proved about
those functions, for every input and every run.

- `uint32`, `uint16` and `int32` are subset types of `int`: every C assignment to such a variable is
  a proof that the arithmetic neither wraps nor goes below zero. Where the code does wrap (the
  16-bit countdown of a blinker) the model writes the wrap-around out.
- Memory that the code does not initialise holds arbitrary values in the model: the line buffer of
  grep, fresh in every call, the header buffer of execute, video memory before the first clear, the
  page tables before `paging_init`.
- A pointer into a buffer is an index; a null pointer is `None`, or 0 with index k written as k + 1.
- A class that stands for a C structure keeps the C fields; its abstract value is a ghost function
  (`Console.Terminals`, `Blink.Value`, `Paging.Value`, `Keyboard.State`, `Kernel.Is`).

The main results, by component:

- **Files.** A file is its listed blocks end to end, cut at its length (`FileSystem.ContentIsBlocks`);
  `ReadData` copies exactly a slice of it; reading in parts is reading at once (`RunIsOneRead`); in every run of calls from zeroed memory, whatever is opened and
  however much is asked for, no open file is ever positioned behind its end
  (`ProcessSpec.PositionsStayInside`); the directory search is exact although its comparison length
  only grows (`ReadDentryByName`).
- **Programs.** `GrepAll.SearchFiles` gives exit status and complete output of the line search over
  a directory of any files: one part for every entry, in order, each the report on the lines that
  `Stream.SearchedLines` says the buffer sees. A file's lines are seen as its pieces if and only if
  no carried line is disturbed by a NUL and no stale newline cuts one (`Grep.SearchesPiecesIff`), and
  the pieces print the matching lines if and only if no line longer than 1024 bytes matches
  (`TextLines.PrintedIffLongLinesMiss`). A NUL-free file's part is right whatever the other files
  hold, unless it is longer than 1024 bytes and a stale newline lies behind its first window
  (`GrepAll.PartIsReport`). `Cat.Cat` writes a file, or of a directory as many bytes of each name as
  are not NUL, to the terminal, whose screen then shows the last 25 rows (`CatShowsTheFile`).
- **Screen and terminals.** The screen is a window on the end of a log of wrapped rows
  (`Log.ScreenIsWindowOnLog`, `LogIsWrappedText`), on every such screen it is known what backspace
  and Enter make of the log (`BackRestoresIff`, `EnterShows`), and three terminals on one screen are
  three screens (`Terminals.TerminalsAreIndependent`, `EachTerminalShowsItsOwnLog`).
- **Keyboard.** Each terminal's line is the fold of the edits made while it was visible
  (`KeySpec.LinesAreFolds`), under modifiers that depend only on the key history
  (`ModifiersFromHistory`). What each key types, draws, switches and edits is known by its scan code
  (`KeyLaws.TableMeans`, `KeyTypes`, `TerminalKeys`, `LineKeys`), and a line read is never delivered
  again (`ReadStartsAfresh`).
- **Blinkers.** The linked pool is a plain list in every run (`BlinkLaws.RunRefinesList`); add and
  remove undo each other exactly; synchronised blinkers stay in step; a blinker has a closed form
  (`BlinkTiming.ClosedForm`); the animation is known byte by byte after any number of ticks
  (`Fish.Animate`).
- **Paging.** Every translation after any sequence of set-ups is known (`Paging.AddressSpace`).
- **Processes.** A new program starts with exactly standard input and output open, and base shells
  stay (`ProcessSpec.ProgramStartsClean`, `BaseShellsStay`); no run of calls of other processes
  touches a process's slot or descriptors (`ProcessLaws.RunKeepsOthers`), and starting and ending a
  program touches no other argument (`Process.Kernel.Execute`, `RealHalt`).
- **Text.** Numbers print in a form that parses back and is the only one (`Number.PrintsBack`,
  `PrintedFormIsUnique`); the command splitter and the argument joiner undo each other
  (`Arguments.JoinThenSplit`, `SplitThenJoin`).

## Where the code differs from what it says

The model follows the code. These are the places where a comment, a name or an evident intention
says something else.

- `read_data` is meant to reject an inode number out of range, but its test
  (student-distrib/files.c:128) is right if and only if the number is not the inode count itself
  (`FileSystem.RangeCheckIff`). For that number `ReadData` says what comes out: the first data block
  is read as an inode. No call in the model passes it, because directory entries are in range.
- `dir_read`, `terminal_read` and the kernel's `getargs` ignore the byte count they are given
  (student-distrib/files.c:272, student-distrib/terminal.c:39, student-distrib/system_call.c:410).
  They stay within it if and only if the count is at least 32, the line is no longer than the count,
  or the argument is shorter than it (`Counts.DirReadIff`, `TerminalReadIff`, `GetArgsIff`);
  `CountsExceeded` has an input for each at which they do not. The contracts of the three methods say
  that `Counts.Overwritten` with exactly these bytes is the whole effect on the buffer.
- `dir_read` returns what its comment calls the length of the file name
  (student-distrib/files.c:304-309), counting the bytes that are not NUL. That is the length if and
  only if the name is padded with zeros (`Descriptors.NameCountIff`); `NameCountFails` is a name for
  which it is not.
- The line search takes a piece of 1024 characters for a line, so a longer line is cut. The lemma
  `TextLines.PiecesMatchIffLongLinesMiss` says exactly when that changes what is found, and
  `PrintedIffLongLinesMiss` when it changes what is printed; `LongLineFails` is a line of 1025
  characters that is missed.
- It carries a partial line to the front of its buffer by a string copy, which stops at a NUL while
  the length counts the whole line, so bytes that stood there before come back
  (syscalls/ece391grep.c:35-36). And it tests the byte behind the buffer, which nothing has written,
  for a newline (syscalls/ece391grep.c:33). `Stream.StreamIsPiecesIff` says exactly when the lines
  searched are still the pieces of the file; `FrontIsPartialIff` when one carried line survives;
  `StaleBytesExample` is a four-byte file that fails, and `EdgeCuts` the files that a stale newline
  cuts. NUL-free files of up to 1024 bytes never fail, and longer ones only by the stale newline
  (`NoNulIsUndisturbed`).
- The user library's `ece391_getargs` puts a terminator behind its count if an argument ends exactly
  there, and otherwise stays within it (syscalls/ece391emulate.c:139-141). `Arguments.GetArgs` states
  both; `FilledExample` is such an argument.
- A background terminal scrolls with rows of the wrong buffer (student-distrib/lib.c:350).
  `Terminals.BackgroundOutput` says exactly when its screen is still right; `BackgroundFails` is a
  newline in the last row for which it is not.
- Backspace at column 0 goes to column 78 of the row above (student-distrib/lib.c:72). On any screen
  that shows a character behind a log, backspace leads back to the log if and only if the character
  did not scroll and the column it lands in is the end of the log (`Log.BackRestoresIff`): the last
  character of a full row is not taken back once the cursor has wrapped. `EraseFails` is such an
  input, 81 characters on a cleared screen and two backspaces; `EraseRestores` is the case of a
  backspace straight after the character.
- Enter moves the cursor once in `check_mode` and once more when its newline is printed
  (student-distrib/keyboard.c:235 and 316), although its comment asks for one new line
  (student-distrib/lib.c:85-86). It does what the newline alone does if and only if the row is full
  or the last one, or the cursor stands in the row before the last of a blank screen
  (`Screen.EnterIsNewlineIff`); on a cleared screen it goes down two rows (`EnterMovesTwice`).
  `Log.EnterShows` says what the log gains: one line break in a full or last row, elsewhere two.
- The overflow guard of the keyboard tests a counter that never moves
  (student-distrib/keyboard.c:295), so every key passes it. A key then stores inside the 128 bytes if
  and only if it edits nothing or fewer than 128 characters are pending (`KeySpec.GuardIff`), and 128
  letters in a row lead to a state in which it does not (`GuardFails`). The model keeps the test and
  asks for fewer than 128 pending characters when a key edits the line.
- A blinker at location 0 looks free to the allocator although `mp1_ioctl_add` accepts it.
  `BlinkLaws.AddNeedsLocation` shows that location 0 is the only one that breaks the list, and
  `LocationZeroMakesACycle` what happens next.
- The on and off lengths are compared as signed words, so only lengths from 1 to 0x8000 mean what
  they say (`BlinkTiming.LengthsAreExactIff`; `LengthsFail` has two that do not).
- `mp1_ioctl_sync` chooses the character to draw with a conditional move that never moves
  (fish/blink.S:281-282), so it draws the off character. That is the one the blinker stands at if and
  only if the copied status is off or its two characters are equal (`Frames.RedrawIsRightIff`); it is
  wrong for every two-character blinker synchronised with itself right after it was added
  (`RedrawGoesWrong`).
- A newline where an argument could start ends the arguments of `ece391_execute`; one right after
  an argument only separates (syscalls/ece391emulate.c:89-97). `Arguments.AllWordsFoundIff` says
  exactly when arguments are lost; `WordsLost` is a text of four characters that loses one.

## Model

| member | source | states |
|---|---|---|
| CString.StrncmpUser | syscalls/ece391support.c:35-46 | the result is 0 iff the texts agree up to n characters, and otherwise the difference of the first two unsigned characters that differ |
| CString.StrncmpKernel | student-distrib/lib.c:642-656 | the same with signed characters |
| CString.SignedMeans | student-distrib/lib.c:642-656 | a signed character is the one value from -128 to 127 that agrees with the byte modulo 256 |
| CString.Strlen | student-distrib/lib.c:469-474 | the result is the length of the text before the first NUL |
| CString.StrcpyDown | syscalls/ece391support.c:14-17 | a string copied down inside its own buffer arrives unchanged, and nothing outside the target changes |
| CString.Strcpy | syscalls/ece391support.c:14-17 | the target holds the text and its terminator, and nothing else changes |
| FileSystem.ReadData | student-distrib/files.c:127-176 | for every inode number: -1 above the inode count; otherwise copies exactly content[offset .. min(offset + length, file length)], returns its size, touches nothing else, never underflows; the inode count itself reads the first data block as an inode |
| FileSystem.ReadNode | student-distrib/files.c:131-176 | the same behind the range check, files that fill all 1023 blocks included |
| FileSystem.ContentIsBlocks | student-distrib/files.c:134-163 | the content of a file is its listed blocks of 4096 bytes one behind the other, cut at its length |
| FileSystem.InodeBytes | student-distrib/files.c:132-136 | a block read as an inode holds the length and then 1023 block numbers, each lowest byte first |
| FileSystem.RangeCheckIff | student-distrib/files.c:127-129 | the check accepts exactly the numbers in range iff the number is not the inode count, which it accepts |
| FileSystem.CopyFromBlock | student-distrib/files.c:160-164 | the inner loop copies the bytes of one block that the flat file has at this offset |
| FileSystem.RunIsOneRead | student-distrib/files.c:144-175 | any run of reads, put together, is one read of the total size |
| FileSystem.SliceParts | student-distrib/files.c:144-175 | two reads that follow each other are one |
| FileSystem.ReadDentryByName | student-distrib/files.c:60-84 | returns the first entry with exactly this name, None exactly when there is none, names of 32 unterminated bytes included |
| FileSystem.FindIsFirst | student-distrib/files.c:70-83 | the search fails iff no entry has the name, and otherwise yields the first one that has it |
| FileSystem.ComparisonIsEquality | student-distrib/files.c:72-78 | comparing up to any length not below both names decides equality of names |
| FileSystem.EntryLength | student-distrib/files.c:71-74 | the length of an unterminated 32-byte name runs on into the file type, and cut to 32 it is the name's length |
| Descriptors.Pcb.constructor | student-distrib/system_call.c:160-163 | a process block in zeroed memory has eight closed descriptors |
| Descriptors.Pcb.FileRead | student-distrib/files.c:188-211 | delivers the next bytes and moves the position by their number; bad arguments change nothing |
| Descriptors.Pcb.DirRead | student-distrib/files.c:272-310 | writes exactly the 32 name bytes of the entry at the position whatever the count, returns how many are not NUL, and returns 0 without change at the end of the directory |
| Descriptors.Pcb.Open | student-distrib/system_call.c:332-359 | opens the first entry of that name in the lowest free descriptor; -1 and no change iff there is no entry or no descriptor |
| Descriptors.Pcb.Close | student-distrib/system_call.c:368-385 | frees exactly this descriptor, or fails without change |
| Descriptors.Pcb.Read | student-distrib/system_call.c:276-295 | dispatches to file, directory or clock; closed descriptors and standard output give -1 without change |
| Descriptors.Pcb.GetArgs | student-distrib/system_call.c:395-417 | writes exactly the stored argument and its terminator whatever the count; fails iff the buffer is null, the count is not positive or there is no argument |
| Descriptors.CountNonZero | student-distrib/files.c:304-307 | the counting loop counts the bytes that are not NUL |
| Descriptors.NameCountIff | student-distrib/files.c:304-309 | the number of non-NUL bytes is the length of the name iff the name is padded with zeros |
| Descriptors.NameCountFails | student-distrib/files.c:304-309 | a name of one character that counts as two |
| Descriptors.ReadAdvances | student-distrib/files.c:188-211 | one read takes the next bytes off the front of what is unread, never passes the end, and is short only at the end |
| Descriptors.OpenedIsFresh | student-distrib/system_call.c:344-353 | a just opened regular file has its whole content left to read |
| Descriptors.NextFreeSlot | student-distrib/system_call.c:342-343 | after the lowest free descriptor is taken, the lowest free one above it is next |
| Counts.DirReadIff | student-distrib/files.c:272-310 | dir_read stays within its count, whatever the buffer holds, iff the count is at least 32 |
| Counts.TerminalReadIff | student-distrib/terminal.c:36-49 | terminal_read does iff the line is no longer than the count |
| Counts.GetArgsIff | student-distrib/system_call.c:395-417 | getargs does iff the argument is shorter than the count |
| Counts.CountsExceeded | student-distrib/system_call.c:395-417 | an input for each of the three at which it writes past its count |
| Counts.StaysWithinIff | student-distrib/files.c:295-297 | a write of these bytes leaves everything behind the count alone iff they are no more than the count |
| TextLines.PiecesMatchIffLongLinesMiss | syscalls/ece391grep.c:20-60 | searching buffer-sized pieces finds exactly the matching lines iff no line longer than 1024 bytes contains the pattern |
| TextLines.LongLineFails | syscalls/ece391grep.c:20-60 | a line of 1025 characters for which they differ |
| TextLines.PiecesAreCutLines | syscalls/ece391grep.c:28-57 | the pieces the buffer sees are the lines cut after every 1024 characters, up to empty pieces |
| TextLines.CuttingIsHarmless | syscalls/ece391grep.c:28-57 | when no long line matches, pieces and lines give the same matches in the same order |
| TextLines.PrintedIffLongLinesMiss | syscalls/ece391grep.c:20-60 | for NUL-free files the bytes printed for the pieces are those for the matching lines iff no line longer than 1024 bytes contains the pattern |
| TextLines.RowsDetermineLines | syscalls/ece391grep.c:45-48 | the printed bytes determine the lines they show |
| TextLines.HitMeans | syscalls/ece391grep.c:42-45 | a line contains a non-empty pattern iff it is something, the pattern, and something more |
| TextLines.EmptyHitMeans | syscalls/ece391grep.c:42-45 | it contains the empty pattern iff it has a NUL byte |
| TextLines.MatchingCounts | syscalls/ece391grep.c:42-51 | the lines found are those with the pattern, each as often as it stands in the text |
| TextLines.LinesMakeText | syscalls/ece391grep.c:28-57 | the lines, each with a newline, are the text again, up to a missing last newline |
| TextLines.LinesHaveNoNewline | syscalls/ece391grep.c:28-57 | no line has a newline in it |
| TextLines.LongLineIff | syscalls/ece391grep.c:20-60 | a line of n characters that all match is found as it is iff n is at most 1024 |
| Stream.StreamIsPiecesIff | syscalls/ece391grep.c:20-60 | the lines searched through the buffer are the pieces of the file iff no carried line is disturbed by its NUL bytes and no stale newline cuts one |
| Stream.FrontIsPartialIff | syscalls/ece391grep.c:34-37 | a carried line arrives as it was iff every byte behind its first NUL repeats what stood at the front of the buffer |
| Stream.NoNulIsUndisturbed | syscalls/ece391grep.c:20-60 | files without NUL are undisturbed, unless a stale newline lies behind a full window |
| Stream.StreamCount | syscalls/ece391grep.c:20-60 | without a stale newline as many lines are searched as the file has pieces, whatever bytes it holds |
| Stream.StaleBytesExample | syscalls/ece391grep.c:34-37 | a file of four bytes in which a byte behind a NUL is replaced by a stale one |
| Stream.EdgeCuts | syscalls/ece391grep.c:33 | a stale newline behind the first window disturbs every longer file whose window ends inside a line behind its first |
| Stream.PiecesOfLines | syscalls/ece391grep.c:28-57 | pieces of complete lines and of what follows them are independent |
| Grep.MatchesHere | syscalls/ece391grep.c:43-44 | the test at one position succeeds iff the pattern occurs there, where an empty pattern occurs at a NUL |
| Grep.SearchLine | syscalls/ece391grep.c:42-51 | prints file name, colon, the line up to its first NUL and newline once iff the line, NUL bytes included, contains the pattern |
| Grep.FindLineEnd | syscalls/ece391grep.c:30-32 | finds the first newline, or the end of what was read |
| Grep.CarryDown | syscalls/ece391grep.c:34-37 | the partial line up to its first NUL arrives at the front of the buffer, and behind it stand the bytes from before |
| Grep.SearchPiece | syscalls/ece391grep.c:40-52 | searching one line of a window appends its row to the output and writes one terminator, whatever bytes the line holds |
| Grep.ScanBuffer | syscalls/ece391grep.c:28-57 | after one buffer the report on the lines searched now is printed and the partial last line, as the string copy leaves it, is at the front |
| Grep.Refill | syscalls/ece391grep.c:22-27 | a read behind the carried bytes continues the file without gap, and is short only at its end |
| Grep.Round | syscalls/ece391grep.c:21-59 | one round keeps printed plus pending for any content, knows whether the byte behind the next window is a newline, and an empty read leaves nothing pending |
| Grep.SearchOpenFile | syscalls/ece391grep.c:20-60 | for every content of file and buffer the read loop terminates and prints exactly the report on the lines searched |
| Grep.DoOneFile | syscalls/ece391grep.c:9-66 | for every regular file or clock, from an uninitialised buffer: prints the report on the lines searched and closes the descriptor again, or the message if it cannot be opened |
| Grep.SearchAndClose | syscalls/ece391grep.c:20-66 | the part behind a successful open |
| Grep.OpenText | syscalls/ece391grep.c:15-18 | the file found under the name is open at its start, or nothing has changed |
| Grep.SearchesPiecesIff | syscalls/ece391grep.c:20-60 | the lines searched are the pieces of the file iff it is undisturbed |
| Grep.PrintsMatchingLines | syscalls/ece391grep.c:20-60 | for a NUL-free file the output is the matching lines, once each and in file order, iff no long line matches |
| GrepAll.NameInBuffer | syscalls/ece391grep.c:84-91 | cutting the 33-byte name buffer at the returned count leaves exactly the entry's name |
| GrepAll.NextEntry | syscalls/ece391grep.c:84-94 | one round handles the directory entry at the position: hidden, searched, or refused for lack of a descriptor; other descriptors stay open or closed |
| GrepAll.SearchEntry | syscalls/ece391grep.c:92-94 | the file an entry names is searched, or refused exactly when no descriptor is free |
| GrepAll.SearchAll | syscalls/ece391grep.c:84-96 | the loop visits the entries in order up to the end of the directory, an entry without a name or a refused file, and prints one part for each |
| GrepAll.SearchFiles | syscalls/ece391grep.c:68-97 | exit status and complete output of the program over a directory of any files, NUL bytes included: a message, or one part for every entry visited, hidden ones empty; no descriptor but the directory's is left open |
| GrepAll.HiddenByDot | syscalls/ece391grep.c:88-89 | an entry is passed over iff its name starts with a dot |
| GrepAll.ExitStatus | syscalls/ece391grep.c:84-97 | the status is 0 iff the walk reaches the end or an entry without a name, and else 3 at the first file without a free descriptor |
| GrepAll.PartIsReport | syscalls/ece391grep.c:9-66 | the part of a NUL-free file is the report on its pieces, whatever the other files hold, unless it is longer than 1024 bytes and a stale newline lies behind its first window |
| GrepAll.PartsAreReports | syscalls/ece391grep.c:84-97 | if no file is disturbed the parts are the reports on all files not hidden by a dot, in directory order |
| GrepAll.ReportsAreMatches | syscalls/ece391grep.c:84-97 | and if no long line matches these are the matching lines of all of them |
| Output.Write | student-distrib/system_call.c:306-322 | text for standard output goes to the running program's terminal and nowhere else; other descriptors give -1 |
| Output.WritingInParts | student-distrib/terminal.c:59-67 | writing a text in two parts is writing it at once |
| Output.OutputShows | student-distrib/terminal.c:59-67 | written to a cleared terminal, a text leaves its last 25 rows there and the other terminals as they were |
| Cat.Cat | syscalls/ece391cat.c:6-31 | the terminal receives exactly the file, of a directory the first bytes of each name, as many as are not NUL, nothing for the clock, or the message for the exit status; no other descriptor changes |
| Cat.ExitStatus | syscalls/ece391cat.c:11-19 | the status is 3 iff there is no argument, 2 iff nothing of that name can be opened, and else 0 |
| Cat.ReadArgument | syscalls/ece391cat.c:11-14 | the buffer holds the argument, or there is none |
| Cat.OpenArgument | syscalls/ece391cat.c:16-19 | the lowest free descriptor has everything the named entry holds left to read, or nothing changes |
| Cat.PrintFile | syscalls/ece391cat.c:16-30 | the part behind the argument: everything that can be read, or the message that the name is not found |
| Cat.CopyOut | syscalls/ece391cat.c:21-28 | the loop terminates having written exactly what was unread of a file, a directory or the clock |
| Cat.CopyPart | syscalls/ece391cat.c:21-28 | one round writes what it read, and leaves the rest of the output to be written |
| Cat.ReadNext | syscalls/ece391cat.c:22-26 | one read takes the next bytes off what remains, and delivers none exactly at its end |
| Cat.CatShowsTheFile | syscalls/ece391cat.c:6-31 | printed on the cleared visible terminal, a file shows as its last 25 wrapped rows, and the other terminals keep theirs |
| Screen.ForeignScroll | student-distrib/lib.c:346-358 | a scroll from another buffer is right iff it does not happen or that buffer holds the same rows |
| Screen.EnterIsNewlineIff | student-distrib/lib.c:87-97 | the Enter key does what its newline alone does iff the row is full or the last one, or it is the row before the last of a blank screen |
| Screen.EnterMovesTwice | student-distrib/lib.c:87-97 | on a cleared screen Enter moves down two rows and a newline one |
| Screen.CellWritten | student-distrib/lib.c:281-284 | a character goes to cell 80 * y + x with attribute 7, and a cleared screen has 2000 spaces with it |
| Screen.BackAfterClear | student-distrib/lib.c:68-71 | backspace on a cleared screen changes nothing |
| Screen.ScrollKeepsIff | student-distrib/lib.c:103-115 | a scroll changes nothing iff the screen is blank |
| Log.PutShows | student-distrib/lib.c:262-295 | output of one character keeps the screen a window on the log |
| Log.PutAllShows | student-distrib/lib.c:262-295 | so does output of any text |
| Log.ScreenIsWindowOnLog | student-distrib/lib.c:30-39 | after clear and any output the screen shows the last 25 rows of the log, padded with blanks, with the cursor at its end |
| Log.BackRestoresIff | student-distrib/lib.c:68-80 | on every screen that shows a character behind a log, backspace leads back to the log iff the character did not scroll and it lands in the column where the log ends |
| Log.SecondBackspaceFails | student-distrib/lib.c:68-80 | behind 79 characters the second of two backspaces leaves the 80th character standing and stops in column 78 |
| Log.EraseFails | student-distrib/lib.c:68-80 | 81 characters on a cleared screen and two backspaces are such an input |
| Log.EnterShows | student-distrib/keyboard.c:230-239 | the Enter key puts one line break behind the log in a full or last row, and two elsewhere |
| Log.EnterMoves | student-distrib/lib.c:87-97 | before its newline is printed Enter has broken the line where the row is neither full nor last, and has changed no cell |
| Log.EraseRestores | student-distrib/lib.c:68-80 | a backspace straight after a character takes it back iff it did not scroll and was no newline, except behind a row of 78 characters |
| Log.LogIsWrappedText | student-distrib/lib.c:262-295 | the rows of the log are the text cut at newlines and after every 80 characters |
| Log.WrapsAtEighty | student-distrib/lib.c:267-270 | a row of the log takes 80 characters |
| Log.ShowsLastRows | student-distrib/lib.c:271-280 | n newlines on a cleared screen go down n rows, but not below row 24 |
| Terminals.StepIsIndependent | student-distrib/lib.c:304-340 | one event acts on its own terminal as on a single screen, and on no other |
| Terminals.BackgroundOutput | student-distrib/lib.c:342-358 | background output is right iff it does not scroll, or the buffer it copies from holds the same rows |
| Terminals.BackgroundFails | student-distrib/lib.c:342-358 | terminals in which a background newline is wrong |
| Terminals.TerminalsAreIndependent | student-distrib/terminal.c:109-134 | in every run without background scrolling each terminal's screen is the replay of its own operations on one screen |
| Terminals.SwitchToSelf | student-distrib/terminal.c:133-147 | switching a terminal to itself changes nothing |
| Terminals.EachTerminalShowsItsOwnLog | student-distrib/terminal.c:109-134 | a terminal cleared and written to shows the end of its own output, whatever the others did and however often the user switched |
| Console.Console.constructor | student-distrib/terminal.c:81-103 | the terminals start empty with terminal 0 visible, whatever video memory holds |
| Console.Console.ScrollPage | student-distrib/lib.c:103-115 | the in-place loops move every row up by one and blank the last |
| Console.Console.MoveRowsUp | student-distrib/lib.c:105-109 | the first loop alone |
| Console.Console.BlankLastRow | student-distrib/lib.c:110-114 | the second loop alone |
| Console.Console.PutcSwitch | student-distrib/lib.c:262-295 | the output step on the visible screen; the saved pages stay |
| Console.Console.Backspace | student-distrib/lib.c:68-80 | the backspace step on the visible screen |
| Console.Console.Clear | student-distrib/lib.c:30-39 | the clear step on the visible screen |
| Console.Console.Enter | student-distrib/lib.c:87-97 | the cursor step of Enter |
| Console.Console.Putc | student-distrib/lib.c:304-340 | the output step of the running program's terminal, visible or not |
| Console.Console.PutcBackground | student-distrib/lib.c:312-337 | background output changes only its terminal's page and cursor, and scrolls from the visible terminal's saved page |
| Console.Console.CopyPage | student-distrib/terminal.c:113 | one page becomes a copy of another |
| Console.Console.TerminalSave | student-distrib/terminal.c:109-115 | the visible screen and cursor are saved for one terminal; the others keep theirs |
| Console.Console.TerminalLoad | student-distrib/terminal.c:121-127 | a saved screen and cursor become visible |
| Console.Console.TerminalSwitch | student-distrib/terminal.c:133-147 | the switch step of the three terminals |
| Console.Console.TerminalWrite | student-distrib/terminal.c:59-67 | writing a buffer is the run of its characters |
| KeySpec.LinesAreFolds | student-distrib/keyboard.c:271-326 | in every run of keys, switches and reads each terminal's line is the fold of the edits made while it was visible |
| KeySpec.StepIsFold | student-distrib/keyboard.c:271-326 | one key or read edits the visible terminal's line only |
| KeySpec.EditedConcat | student-distrib/keyboard.c:230-247 | edits in sequence compose |
| KeySpec.StepInTwo | student-distrib/keyboard.c:271-326 | the two halves make one step of the key history |
| KeySpec.TypingTests | student-distrib/keyboard.c:282-320 | the driver's tests on the modifiers after the key, in terms of those before it |
| KeySpec.GuardIff | student-distrib/keyboard.c:230-317 | a key that passes the overflow guard, as all do, stores inside the 128 bytes iff it edits nothing or fewer than 128 characters are pending |
| KeySpec.LettersFill | student-distrib/keyboard.c:295-317 | n presses of a letter leave n more characters pending, for every n |
| KeySpec.GuardFails | student-distrib/keyboard.c:295-317 | after 128 letters from the initial state the next one is stored behind the buffer |
| KeySpec.EnterEvents | student-distrib/keyboard.c:230-239 | on the visible screen Enter is the cursor movement and then the output of a newline |
| KeyLaws.TableRows | student-distrib/keyboard.c:36-182 | the characters of every key by scan code, plain, with shift, with caps lock and with both |
| KeyLaws.TableMeans | student-distrib/keyboard.c:36-182 | shift and caps lock each make a letter a capital and cancel each other; caps lock changes no other character |
| KeyLaws.KeyTypes | student-distrib/keyboard.c:295-317 | a typing key puts its character into line and screen, and does nothing if it has none |
| KeyLaws.OtherCodes | student-distrib/keyboard.c:282-286 | codes from 92 on type nothing |
| KeyLaws.ModifierKeys | student-distrib/keyboard.c:206-229 | the modifier keys by scan code |
| KeyLaws.ShiftedDigit | student-distrib/keyboard.c:297-310 | shift and the key of "1" type "!", caps lock and that key "1" |
| KeyLaws.ShiftedLetter | student-distrib/keyboard.c:297-310 | with shift or caps lock the key of "a" types "A", with both or neither "a" |
| KeyLaws.TerminalKeys | student-distrib/keyboard.c:248-258 | alt and F1, F2, F3 show terminals 0, 1, 2 and change nothing else; no other key changes the terminal |
| KeyLaws.KeysOnScreen | student-distrib/keyboard.c:240-293 | backspace erases on the screen iff a character is pending, and control and L clears it and types nothing |
| KeyLaws.LineLaws | student-distrib/keyboard.c:230-247 | a read empties the line, backspace undoes the last character, Enter keeps the text |
| KeyLaws.LineKeys | student-distrib/keyboard.c:230-317 | Enter ends the visible line with a newline, backspace shortens it, a read empties it, and the other lines stay |
| KeyLaws.ReadStartsAfresh | student-distrib/terminal.c:36-49 | after a read a terminal's line is made of the edits since that read alone |
| KeySpec.HeldMeans | student-distrib/keyboard.c:206-229 | a modifier is held iff it was pressed, or held before, with no release since |
| KeySpec.ModsAreHeld | student-distrib/keyboard.c:205-229 | each flag follows its own key alone, caps lock the parity of its presses |
| KeySpec.ModifiersFromHistory | student-distrib/keyboard.c:205-229 | so it is in every run of the whole keyboard |
| Keyboard.Keyboard.constructor | student-distrib/keyboard.c:189-196 | no modifier is held and every line is empty |
| Keyboard.Keyboard.PressModifier | student-distrib/keyboard.c:206-229 | the modifier flags after a key |
| Keyboard.Keyboard.PressEnter | student-distrib/keyboard.c:230-239 | the newline is stored behind the pending characters, the line is submitted and the cursor moves; the other lines stay |
| Keyboard.Keyboard.PressBackspace | student-distrib/keyboard.c:240-247 | the last character leaves line and screen, if there is one, and a space is stored behind the pending characters |
| Keyboard.Keyboard.Type | student-distrib/keyboard.c:311-317 | the character is stored behind the pending ones and joins line and screen |
| Keyboard.Keyboard.CheckMode | student-distrib/keyboard.c:205-261 | everything a key does before its character is typed: one half of the key step, for any number of pending characters unless it edits the line |
| Keyboard.Keyboard.TypeKey | student-distrib/keyboard.c:282-320 | the other half: the character of the key, or the screen clear |
| Keyboard.Keyboard.ShowPressedKey | student-distrib/keyboard.c:271-326 | one keyboard interrupt is one step of the key history and its events on the terminals |
| Keyboard.Keyboard.TerminalRead | student-distrib/terminal.c:36-49 | writes exactly the visible terminal's line whatever the count and leaves it empty and not entered; a null buffer gives -1 without change |
| BlinkSpec.AddRawValid | fish/blink.S:140-162 | linking a node with a location keeps pool and list in agreement |
| BlinkSpec.RemoveNthValid | fish/blink.S:206-223 | so does unlinking a node and zeroing its slot |
| BlinkSpec.SamePointersValid | fish/blink.S:267-275 | so does any change of timing fields |
| BlinkLaws.ListedIffLocated | fish/fish.c:160-170 | a slot is in the list iff its location is not 0 |
| BlinkLaws.PoolFullIffListLong | fish/fish.c:160-170 | the list never has more than 2000 nodes, and the allocator fails iff it has 2000 |
| BlinkLaws.AddNeedsLocation | fish/blink.S:131-162 | adding keeps pool and list in agreement iff the location is not 0 |
| BlinkLaws.LocationZeroMakesACycle | fish/blink.S:140-162 | after a node at location 0 the next one takes its slot and points to itself |
| BlinkLaws.PoolRefinesList | fish/blink.S:105-300 | every operation on the linked pool is that operation on a plain list |
| BlinkLaws.RunRefinesList | fish/blink.S:49-300 | in every run of add, remove, sync and tick the linked pool is the plain list |
| BlinkLaws.FindAgrees | fish/blink.S:351-374 | the search finds the first node of the plain list at the location |
| BlinkLaws.AddThenRemove | fish/blink.S:105-237 | the node just added is found first, and removing there restores list and pool exactly |
| BlinkLaws.UntouchedSlot | fish/blink.S:49-300 | an event not aimed at a blinker changes it by its tick only |
| BlinkLaws.SyncSynchronises | fish/blink.S:248-275 | sync gives the second blinker the timing of the first |
| BlinkLaws.StaysInSync | fish/blink.S:60-90 | two blinkers in step stay in step through every run that neither removes nor synchronises one of them |
| BlinkTiming.PhaseStep | fish/blink.S:60-90 | a tick moves a blinker one phase on, and around at the end of its period |
| BlinkTiming.ClosedForm | fish/blink.S:60-90 | t ticks after it was added, a blinker is where t modulo its period puts it, for all lengths and all t |
| BlinkTiming.OnByPhase | fish/blink.S:71-86 | it is on iff t modulo the period is below the on-time |
| BlinkTiming.OnForOnLength | fish/blink.S:135-138 | with lengths in 1..0x8000 that is the first onLength ticks of every onLength + offLength |
| BlinkTiming.LengthsAreExactIff | fish/blink.S:64-66 | the lengths mean what they say iff both lie in 1..0x8000 |
| BlinkTiming.LengthsFail | fish/blink.S:64-66 | lengths of 0x8001 and 0 do not |
| Blink.Blink.constructor | fish/fish.c:28 | a cleared pool is an empty list |
| Blink.Blink.Malloc | fish/fish.c:160-170 | the first slot whose location is 0, or NULL |
| Blink.Blink.FindHelper | fish/blink.S:351-379 | the walk terminates at the first node at the location, or NULL |
| Blink.Blink.IoctlAdd | fish/blink.S:105-184 | adds and draws the node; fails iff the location is out of range or the pool is full; afterwards pool and list agree iff it failed or the location is not 0 |
| Blink.Blink.FindPrevious | fish/blink.S:206-212 | the walk terminates at the node before, or at the list head |
| Blink.Blink.IoctlRemove | fish/blink.S:187-237 | unlinks and zeroes the first node at the location; fails iff there is none |
| Blink.Blink.IoctlSync | fish/blink.S:240-300 | copies the timing and draws the off character; fails iff one location has no node |
| Blink.Blink.IoctlFind | fish/blink.S:302-349 | returns the first node at the location, or fails |
| Blink.Blink.TickNode | fish/blink.S:64-86 | one node's countdown, character and status after a tick |
| Blink.Blink.Tasklet | fish/blink.S:49-99 | one tick of every node, each at most once, and what it paints |
| Frames.ReadStep | fish/fish.c:102-116 | one read per column keeps the reader in step with its frame, short lines reading as spaces |
| Frames.RowStep | fish/fish.c:118-120 | when both lines have ended the rest of the row is blank |
| Frames.DrawnFilledCell | fish/fish.c:122-127 | adding one cell's blinker extends the drawn part by that cell |
| Frames.RoomInPool | fish/fish.c:160-170 | frames that fit leave room in the pool for every next cell |
| Frames.TickDisplays | fish/blink.S:49-99 | if every cell shows its blinker's character before a tick, it does after it |
| Frames.RedrawIsRightIff | fish/blink.S:276-285 | the redraw of a sync shows the character the blinker stands at iff the copied status is off or its two characters are equal |
| Frames.RedrawGoesWrong | fish/blink.S:276-285 | it is wrong for any two-character blinker synchronised with itself right after it was added |
| Frames.FrameSlotCurrent | fish/blink.S:60-90 | a frame blinker shows frame 0 for the first 15 of every 30 ticks, then frame 1 |
| Frames.AnimationIsExpected | fish/fish.c:78-148 | fully drawn and ticked t times, every byte of video memory is the expected one |
| Frames.WhereCharactersAppear | fish/fish.c:81-127 | the character at row r and column c is byte 2 * (80 * r + c + 40) of video memory, frame 0 for 15 ticks of every 30, and its attribute stays |
| Frames.CharAtIsLine | fish/fish.c:98-130 | the character at a row and column of a frame is that character of that line, or a space |
| Fish.AddRow | fish/fish.c:99-130 | the column loop terminates with one row of both frames drawn; no other descriptor changes |
| Fish.AddColumn | fish/fish.c:101-129 | one column reads a character of each frame and draws its cell, and ends the row iff both lines have ended |
| Fish.EndRow | fish/fish.c:132-144 | a finished file reads as newline and is closed, the other is ready for its next line |
| Fish.AddRows | fish/fish.c:98-147 | the row loop terminates with both frames drawn and both descriptors closed |
| Fish.AddFrames | fish/fish.c:78-148 | halts iff a frame cannot be opened, and otherwise draws exactly the filled cells of both frames and leaves every descriptor as it was, its own two free |
| Fish.Animate | fish/fish.c:36-44 | t ticks after adding, every cell either frame fills shows frame 0 when t mod 30 < 15 and else frame 1, and no other byte of video memory has changed |
| Paging.RunMeans | student-distrib/paging.c:200-240 | tables after any run depend only on the last process set up and on whether the video page was mapped |
| Paging.UserTranslation | student-distrib/paging.c:92-163 | every user translation in closed form |
| Paging.KernelTranslation | student-distrib/paging.c:92-163 | every kernel translation in closed form |
| Paging.AddressSpace | student-distrib/paging.c:23-240 | both, after initialisation and any sequence of set-ups |
| Paging.UserStaysInOwnFrame | student-distrib/paging.c:200-240 | a user access reaches the current process's 4 MB frame or the video page, and never the kernel |
| Paging.FramesAreDisjoint | student-distrib/paging.c:212 | different processes share no physical address but those of the video page |
| Paging.KernelUnchanged | student-distrib/paging.c:92-117 | no set-up changes where a kernel address goes |
| Paging.ProgramAddress | student-distrib/paging.c:200-214 | 0x8000000 + x is 0x800000 + 0x400000 * p + x for a program in slot p |
| Paging.KernelAddress | student-distrib/paging.c:92-117 | 0x400000 + x is itself for the kernel, and a fault for a program |
| Paging.VideoAddress | student-distrib/paging.c:225-240 | 0xB8000 + x is itself for the kernel, and 0x84B8000 + x leads there for programs once the video page was mapped |
| Paging.Paging.PagingInit | student-distrib/paging.c:23-169 | from any contents of the three tables the loops build the initial ones |
| Paging.Paging.InitDirectory | student-distrib/paging.c:92-147 | the directory part of it |
| Paging.Paging.PagingSetUp | student-distrib/paging.c:200-214 | the set-up step for one of the six processes |
| Paging.Paging.VidmapSetUp | student-distrib/paging.c:225-240 | the video step, and the user address it returns |
| Paging.Paging.Vidmap | student-distrib/system_call.c:426-442 | only a pointer into the program page is accepted; then both steps happen |
| Command.CommandSplits | student-distrib/system_call.c:133-180 | a command written as name and argument, with any spacing, splits back into the two |
| Command.ParseName | student-distrib/system_call.c:133-158 | the name buffer holds the first word, zero-padded, and the scan stops right behind it |
| ProcessSpec.StepKeepsValid | student-distrib/system_call.c:38-462 | every call keeps free slots without open descriptors and busy ones with standard input and output |
| ProcessSpec.RunKeepsValid | student-distrib/system_call.c:38-462 | so does every run |
| ProcessSpec.ProgramStartsClean | student-distrib/system_call.c:202-237 | after any run from zeroed memory a new program has exactly standard input and output open |
| ProcessSpec.RunKeepsPlace | student-distrib/system_call.c:276-385 | every run of calls keeps open files and directories at or before their end |
| ProcessSpec.PositionsStayInside | student-distrib/system_call.c:276-385 | in every run from zeroed memory, with any names and any byte counts, no open file or directory is positioned behind its end |
| ProcessSpec.MoveKeepsPlace | student-distrib/files.c:188-211 | a read moves a position by the bytes there are, and never past the end |
| ProcessSpec.ShellRestarts | student-distrib/system_call.c:69-74 | a base shell that halts restarts in its own slot with a fresh table, and nothing else changes |
| ProcessSpec.BaseShellsStay | student-distrib/system_call.c:69-127 | once slots 0 to 2 are busy they stay busy, and other programs get slots 3 to 5 |
| ProcessLaws.StartTakes | student-distrib/system_call.c:112-237 | a program takes the first free one of six slots with input at descriptor 0 and output at 1; with six in use none starts |
| ProcessLaws.ExitFrees | student-distrib/system_call.c:38-61 | a process that ends frees its slot and all its descriptors and changes no other |
| ProcessLaws.OpenMeans | student-distrib/system_call.c:332-359 | a just opened descriptor is at the start of what its entry names |
| ProcessLaws.ReadMeans | student-distrib/files.c:188-211 | a read moves its descriptor exactly behind the bytes or the entry it delivers |
| ProcessLaws.CloseMeans | student-distrib/system_call.c:368-385 | a close frees exactly its descriptor, and never standard input or output |
| ProcessLaws.OpenThenClose | student-distrib/system_call.c:332-385 | opening and closing leaves all other descriptors as they were, and the one used free and next in line |
| ProcessLaws.StepKeepsOthers | student-distrib/system_call.c:38-462 | a call changes neither slot nor descriptors of another process |
| ProcessLaws.RunKeepsOthers | student-distrib/system_call.c:38-462 | nor does any run of calls of other processes |
| ProcessLaws.StartsElsewhere | student-distrib/system_call.c:112-127 | no start and no restart takes a slot that is in use |
| Process.Kernel.constructor | student-distrib/system_call.c:15 | no process exists at first |
| Process.Kernel.FindSlot | student-distrib/system_call.c:112-127 | the first free slot, or 6 |
| Process.Kernel.StoreArgument | student-distrib/system_call.c:165-180 | the process block holds the rest of the command without leading spaces, or nothing |
| Process.Kernel.IsExecutable | student-distrib/system_call.c:182-199 | a file of at least four bytes passes iff it starts with the magic number; a shorter one only if it is the beginning of it |
| Process.Kernel.MagicBytes | student-distrib/system_call.c:192-199 | the magic number is 0x7f and the letters E, L, F |
| Process.Kernel.LookUp | student-distrib/system_call.c:186-199 | the first entry of that name, and whether it is executable |
| Process.Kernel.Prepare | student-distrib/system_call.c:133-199 | name and argument of the command are parsed, the argument stored, the program found and checked |
| Process.Kernel.Begin | student-distrib/system_call.c:202-237 | the slot is taken, its page set up, and standard input and output opened |
| Process.Kernel.Execute | student-distrib/system_call.c:106-265 | the program named starts in the first free slot with its argument and page, or is refused, as a null pointer is, or there is no slot; the slots make that step, and every other process keeps its number and argument |
| Process.Kernel.SetUpIo | student-distrib/system_call.c:451-462 | descriptors 0 and 1 are set, the others stay |
| Process.Kernel.Open | student-distrib/system_call.c:332-359 | the open step of one process; the others keep their tables |
| Process.Kernel.Read | student-distrib/system_call.c:276-295 | the read step of one process, with the move of the position that the step computes, and exactly what it writes into the buffer |
| Process.Kernel.Close | student-distrib/system_call.c:368-385 | the close step of one process |
| Process.Kernel.CloseAll | student-distrib/system_call.c:53-61 | every descriptor that can be open is closed |
| Process.Kernel.ClearArgument | student-distrib/system_call.c:63-67 | the argument is zeroed |
| Process.Kernel.RealHalt | student-distrib/system_call.c:38-74 | the slot is freed, its descriptors closed and its argument zeroed; below slot 3 a new shell starts in the first free slot with its page and without argument, if one is on disk; every other process keeps its number and argument |
| Number.PrintsBack | student-distrib/lib.c:414-444 | the printed form consists of digits, parses back to the value, and has no leading zero except in "0" |
| Number.DigitsInOrder | student-distrib/lib.c:415-434 | the digits are 0 to 9 and then A to Z |
| Number.PrintedFormIsUnique | student-distrib/lib.c:414-444 | it is the only such string |
| Number.PrintedIsReversed | student-distrib/lib.c:427-443 | it is the digits written lowest first, reversed |
| Number.FewDigits | student-distrib/lib.c:170-202 | a number below radix to the n prints in at most n digits, so the fixed buffers are large enough |
| Number.ReverseRange | student-distrib/lib.c:455-461 | the exchange loop mirrors the range and touches nothing else |
| Number.Strrev | student-distrib/lib.c:450-463 | the string is reversed in place |
| Number.Itoa | student-distrib/lib.c:414-444 | the buffer holds the printed form in any radix from 2 to 36, and nothing behind it changes |
| Number.LeadingZeros | student-distrib/lib.c:179-182 | zeros in front do not change the value |
| Number.HexPadded | student-distrib/lib.c:174-184 | exactly eight hexadecimal digits with the same value |
| Number.SignedPrinted | student-distrib/lib.c:200-213 | a minus sign iff negative, then the magnitude; it parses back to the value, the smallest one included |
| Arguments.FindArgument | syscalls/ece391emulate.c:89 | the scan passes over exactly the leading spaces |
| Arguments.CutWord | syscalls/ece391emulate.c:95-97 | the word is terminated in place and the scan goes on behind its separator |
| Arguments.NextArgument | syscalls/ece391emulate.c:88-98 | one round finds the next argument or the end, and leaves earlier ones in place |
| Arguments.GatherArguments | syscalls/ece391emulate.c:87-98 | the loop terminates with every argument in place |
| Arguments.SplitCommand | syscalls/ece391emulate.c:67-100 | the vector's strings are those of the command, a null pointer follows, indices stay in bounds; None iff the command is longer than 1023 |
| Arguments.ArgsAreWords | syscalls/ece391emulate.c:88-98 | the arguments are exactly the words before the first newline that stands where an argument could start |
| Arguments.AllWordsFoundIff | syscalls/ece391emulate.c:90-97 | no word is lost iff only separators follow that newline |
| Arguments.WordsLost | syscalls/ece391emulate.c:90-97 | a text of four characters that loses a word |
| Arguments.ArgsFit | syscalls/ece391emulate.c:71-98 | joined arguments are no longer than the command, and their number fits the vector |
| Arguments.JoinThenSplit | syscalls/ece391emulate.c:76-157 | splitting joined words gives the words back |
| Arguments.CommandOfWords | syscalls/ece391emulate.c:76-100 | a program started with joined words finds them behind its own name |
| Arguments.SplitThenJoin | syscalls/ece391emulate.c:67-157 | of any command the joined arguments are its words single-spaced, fit into 1024 bytes, and split into the same arguments again |
| Arguments.PutArgument | syscalls/ece391emulate.c:140-151 | one round appends an argument and its space, or fails for lack of room, and writes behind the count only the terminator of an argument that ends there |
| Arguments.JoinArguments | syscalls/ece391emulate.c:137-152 | the loop terminates with the arguments joined, or fails because they do not fit |
| Arguments.FilledExample | syscalls/ece391emulate.c:139-141 | an argument and a count for which the terminator lands behind the count |
| Arguments.GetArgs | syscalls/ece391emulate.c:131-157 | the arguments joined by single spaces; fails iff they and the terminator do not fit; writes behind the count exactly when an argument ends there |

## Left out

- Grep.DoOneFile: asks that the entry found be a regular file or the clock; reads of a directory write 32 bytes whatever room is left in the line buffer.
- GrepAll.SearchFiles: asks the same of every entry not hidden by a dot, and that "." is a directory. Its output is given as one text; `Output.Write` says what writing it does to a terminal.
- FileSystem.ReadData: for the inode count itself, asks that the first data block, read as an inode, be a valid one; other contents make the C code read outside the image.
- FileSystem.ReadDentryByName: asks for file types 0 to 2, because the name's length is taken from the bytes that follow it.
- Descriptors.Pcb.Open: does not model the open functions behind the descriptor (student-distrib/files.c:36-50 and 222-230): their results are ignored by the caller, and they change only two directory-entry buffers and the clock rate.
- Descriptors.Pcb.Read: does not model the wait for the clock, and reads of the keyboard are `Keyboard.TerminalRead`.
- Descriptors.Pcb.GetArgs: asks for a buffer that holds the argument, because the C code ignores the count; the count itself may be smaller.
- Output.Write: does not model setting the clock rate.
- Terminals.TerminalsAreIndependent: excludes background scrolling, which copies the wrong rows; `BackgroundOutput` gives the exact condition.
- Console.Console.Putc: asks for a running terminal between 0 and 2; before the first clock interrupt it is -1.
- Console.Console.UpdateCursor: keeps the two position variables and leaves the hardware cursor out.
- Keyboard.Keyboard.ShowPressedKey: asks for fewer than 128 pending characters when the key edits the line; with 128 the C code writes behind its buffer.
- Keyboard.Keyboard.TerminalRead: begins after the wait for Enter, and asks for a buffer that holds the line; the count may be smaller. A key pressed between its loops is not modelled.
- Fish.Animate: asks for frames whose filled characters each have a cell of their own, within 80 columns and the 2000 cells of the screen; further characters would share a cell with the next row or be refused by the driver.
- Paging.AddressSpace: interprets present, write, user and size bits and addresses as in sections 4.3 and 4.6 of Volume 3A of the Intel 64 and IA-32 Architectures Software Developer's Manual; accessed and dirty bits, caching bits and the translation buffer are left out. Every set-up ends with a reload of CR3, and global pages are never enabled.
- ProcessSpec.BaseShellsStay: speaks of runs in which a shell is on disk; without one a halting base shell only frees its slot, as `Process.Kernel.RealHalt` states.
- Process.Kernel.IsExecutable: leaves the answer open for a file shorter than four bytes that is a beginning of the magic number, because it depends on what the stack held.
- Process.Kernel.Execute: asks for a first word of 1 to 31 characters that ends among the first 128 characters and an argument of fewer than 128; for others the C code reads or writes past its buffers. Loading the program image, the entry point, the processor's TSS and the change to user mode are left out.
- Process.Kernel.Read: asks for a buffer of 32 bytes when the descriptor is a directory, because the C code ignores the count.
- Process.Kernel.RealHalt: models slots, descriptors, arguments and the restarted shell; the return to the parent's stack and page is left out.
- `schedule_arr`, the terminals' process index and the parent link: student-distrib/system_call.c:224 and 234-235 use an index that by then points into the command, so nothing about parents is decided there.
- Number.SignedPrinted: stands for %d; %u and plain %x are `Itoa` and the same output loop, and the walk over the format string is left out.
- Arguments.SplitCommand: ends before fork, exec and wait.
- Arguments.GetArgs: asks for a buffer of as many bytes as the count says, and of one more where an argument ends exactly there.
- Scheduling and interrupts between the steps modelled here, the clock rate, the interrupt controller, descriptor tables of the processor, boot information, and the programs pingpong, counter, hello, syserr and sigtest.
