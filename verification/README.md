# A model of a teaching kernel and its user programs

The repository is a small 32-bit kernel (`code/`) with three terminals on one
screen, at most six processes, a read-only file system and a virtual real-time
clock, together with user programs that run on it (`syscalls/`, `fish/`).  This
project models its state and its operations in Dafny and proves what they keep,
over every run.

How it is built:

- What is meant is written as functions on values: a screen and the layout of a
  text (`Screen.dfy`), a line editor (`LineEdit.dfy`), three independent consoles
  (`Consoles.dfy`, `Typing.dfy`), three disjoint stacks of processes with their
  descriptors (`Processes.dfy`), a file as the concatenation of its blocks
  (`FileSystem.dfy`).
- What the C and assembly code does is written as classes, arrays and loops that
  are proved against those functions: one shared video memory, keyboard buffer
  and page pointer (`Video.dfy`, `Console.dfy`), page tables (`Paging.dfy`), the
  pid table and process control blocks (`ProcTable.dfy`), the timer interrupt and
  the system calls (`Kernel.dfy`), the clock (`Rtc.dfy`), number formatting
  (`Itoa.dfy`).
- Properties of whole runs are lemmas about the functions; `Console.RunEvents`
  and `Machine.RunEvents` carry them over to the code: `KernelRuns.dfy`,
  `FileRuns.dfy`, `Listing.dfy`, `Displays.dfy`, `Programs.dfy`, `Machine.dfy`.
- The user programs stand on their own: grep (`Grep.dfy`, `GrepExact.dfy`), the
  frame merge and the blinking list of fish (`Frames.dfy`, `Blink.dfy`, `Fish.dfy`), the
  command splitter and joiner of the emulated system calls (`Args.dfy`), ls and
  cat (`Listing.dfy`).

A handler or a system call is one atomic step.  The kernel starts right after the
fourth timer tick, when the three base shells run.  A saved stack is an opaque
token.

Where the code departs from what it is meant to do, the model follows the code and
states exactly when the intended property holds:

- A read that fails with -1 moves the file position by -1 (`FileRuns.PositionTracksIff`).
- A line longer than nbytes yields nbytes + 1 bytes (`LineEdit.TakenIsTypedLine`).
- A halt on a hidden terminal wipes a half-typed line but not its index; then no line
  can be read there until all of it has been erased by backspaces, Ctrl-L or a halt in
  view (`Consoles.StepKeepsLinesIff`, `Consoles.StuckUntilFreed`).
- Ctrl with a key is echoed even when the line refuses it (`Typing.ShownIffAcceptedIff`).
- A backspace after a scroll does not restore the screen (`Typing.BackspaceUndoesIff`).
- A read empties the line, so that what was typed behind the first newline or beyond
  nbytes is lost (`Consoles.ReadLosesNothingIff`).
- The directory cursor is one for all processes; opening does not rewind it and every
  close does, so that a process may miss entries or get one twice
  (`Listing.ListsInOrderIff`, `Listing.SharedCursorFails`, `Listing.CloseRepeats`).
- A base shell that halts closes nothing: its clock keeps its rate, and an open directory
  the cursor, although the new shell holds neither (`Programs.BaseShellIsReplaced`,
  `Programs.BaseShellKeepsRate`).
- A directory read stores 33 bytes, a name and its NUL, whatever size is asked for
  (`Kernel.Room`, code/directory.c:48-51).
- A directory entry with an empty name ends a listing early (`Listing.ListedAllIff`).
- grep tests data[1024] before anything was written there, cuts lines of more than
  1024 bytes, and compares the first byte of a pattern as a signed char, so that a
  pattern that starts with a byte from 0x80 on finds nothing
  (`GrepExact.GrepPrintsMatchingLinesIff`).
- A frame with a row of more than 80 columns can put two characters on one place
  (`Fish.SeparateIff`, `Fish.WideRowCollides`).
- A blinking character at location 0 makes the list circular
  (`Blink.LocationZeroMakesCycle`), and a sync always draws the off character
  (`Blink.SyncShowsIff`).
- The joiner can write a NUL one byte behind its buffer (`Args.GetArgs`, `Args.OverrunsIff`).
- A frequency that does not divide 1024 is not met exactly (`Rtc.ExactFrequencyIff`).
- sys_vidmap accepts pointers in 8 MB although only the program page and one video page
  are mapped there (`Machine.VidmapPointerMappedIff`).

## Model

| member | source | states |
|---|---|---|
| Layout.PrintShowsText | code/lib.c:191-276 | From a cleared screen, for every byte sequence, the cursor and every byte of the 25 rows of 80 cells after the output loop are those of the last 25 rows of the whole text set in rows of 80, blank elsewhere, with attribute 7 in every cell |
| Layout.PutCharShows | code/lib.c:191-233 | One character on a screen that shows a text gives the screen that shows the text with that character behind it, scrolling included |
| Layout.RowsSnoc | code/lib.c:193-210 | Independent definition of the layout: a line break starts a row, any other character extends the last row and starts a new one at column 80 |
| Layout.GlyphCell | code/lib.c:239-310 | Drawing and undrawing the cursor glyph write an underscore and a space in the cursor's cell, and nothing else |
| Layout.ErasedCells | code/lib.c:249-255 | Undrawing it behind typed text blanks two cells, and nothing else |
| Video.MemCpy | code/lib.c:477-514 | The head, double-word and tail loops together copy every byte of the source range, and no other byte of memory changes, for every length and alignment of ranges that do not overlap |
| Video.ShiftScreen | code/lib.c:262-276 | In place, row by row: every row becomes the row below it, the last one blank; only that page changes |
| Video.ClearPage | code/lib.c:24-30 | All 2000 cells of the page become blank, no other byte of video memory changes |
| Video.PutCharAt | code/lib.c:191-233 | The cursor arithmetic with its two scroll tests does to a page and a cursor exactly what one character does to a screen |
| LineEdit.EditsRefineList | code/keyboard.c:89-117 | Over every sequence of keys and backspaces the buffer is a nonzero prefix of length key_idx followed by zeros, and that prefix is the push and pop list of what was typed |
| Consoles.LineIsOwnEdits | code/keyboard.c:37-145 | Over every sequence of actions without a halt on a hidden terminal with a half-typed line, on a line that was empty at first stands the push and pop list of the console's own keys, tab blanks and backspaces since the line was last emptied by Ctrl-L, a halt in view or a read |
| Consoles.RunLineIsOwnEdits | code/keyboard.c:37-145 | The same for each console of every interleaving of the three, with its own share of the events |
| Consoles.ReadLosesNothingIff | code/terminal.c:58-67 | A read gives the front of the line and empties it; nothing typed is lost if and only if the only newline is the last character and at most nbytes characters stand before it |
| LineEdit.NewlineAlwaysFits | code/keyboard.c:89-101 | At most 127 characters are taken before a newline, and after any sequence of edits a newline still fits |
| LineEdit.TakenIsTypedLine | code/terminal.c:37-73 | A reader gets exactly the typed line through its first newline if and only if the line is no longer than nbytes; it gets at most nbytes bytes if and only if the line is shorter |
| LineEdit.WipeKeepsLineIff | code/system_call.c:410-417 | Wiping a hidden terminal's line without its index keeps the line well formed if and only if nothing was typed |
| LineEdit.WipeSticksIff | code/system_call.c:412-417 | The wipe leaves a line that is stuck behind zeros if and only if something was typed, and an empty one otherwise |
| LineEdit.StuckUntilErased | code/keyboard.c:89-117 | From a stuck line, over every sequence of keys and backspaces that leaves something to erase at each step, no reader gets a line; once everything has been erased the line is empty and usable |
| LineEdit.ErasingRecovers | code/keyboard.c:109-117 | One backspace for each wiped character empties such a line, and the next newline can be read |
| Consoles.StepShares | code/keyboard.c:37-79 | Every event acts on at most one of the three consoles: output on the running terminal's, keys on the shown one's, ticks and switches on none |
| Consoles.StepShows | code/keyboard.c:166-193 | Alt with F1, F2 or F3 shows terminal 0, 1 or 2 and does nothing else; no other event changes which terminal is shown |
| Consoles.ShownTerminal | code/keyboard.c:166-193 | Over any run the shown terminal is the one that the last such key named, or the first one when there was none |
| Consoles.StepActsOn | code/lib.c:191-233 | Output appears on the running terminal's screen, a key acts on the shown console only, a line is taken exactly from a running terminal that is shown, a halt touches the running terminal's line only, and a tick passes the processor to the next terminal |
| Consoles.ConsolesAreIndependent | code/keyboard.c:166-233 | Over every interleaving each console ends exactly as if it had been alone with its own share of the events |
| Consoles.StepKeepsLinesIff | code/system_call.c:410-417 | An event keeps all three lines well formed if and only if it is not a halt on a hidden terminal with a half-typed line |
| Consoles.LinesStayWellFormed | code/keyboard.c:89-145 | So in every run without such a halt the three lines stay well formed |
| Consoles.BlanksTyped | code/keyboard.c:65-71 | A tab types and echoes exactly the blanks that fit, at most four |
| Consoles.StuckUntilFreed | code/system_call.c:410-417 | On a console with a stuck line no reader gets a line, whatever is typed, erased, printed or read, until a backspace on the last character left, Ctrl-L or a halt in view empties the line |
| Consoles.StuckOrFreed | code/keyboard.c:124-134 | One action empties a stuck line exactly if it is one of these, and else leaves it stuck |
| Typing.RunShowsOwnText | code/keyboard.c:37-79 | Whatever happens on the other terminals, a console that started clear shows the last 25 rows of the text of its own output and typing, tabs, clears and backspaces included, until the cursor glyph is drawn or a backspace finds no ordinary character of the text in front of it |
| Typing.ActionsShow | code/keyboard.c:45-71 | The text is all output, every key the line accepts, with Ctrl also the keys it refuses, the blanks of a tab that fit, without the characters taken back, from the last Ctrl-L on |
| Typing.TakeBackShows | code/lib.c:285-298 | Removing a character from a screen that shows a text leaves the text without its last character, when that is an ordinary one and no row was lost behind it |
| Typing.ShownIffAcceptedIff | code/keyboard.c:45-58 | A key that does not get onto the line does not show, if and only if it was accepted or pressed without Ctrl, apart from a line break that scrolls a page without changing it |
| Typing.CtrlEchoOnFullLine | code/keyboard.c:137-140 | The failing input: with 127 characters on the line Ctrl with an ordinary key changes the screen and not the line |
| Typing.EraseShows | code/lib.c:249-255 | Undrawing the cursor glyph changes nothing on a screen that shows a text |
| Typing.BackspaceUndoesIff | code/keyboard.c:59-64 | A backspace takes back an ordinary key: always on the line, on the screen if and only if typing it had not scrolled |
| Typing.RemoveUndoesPut | code/lib.c:285-298 | Removing undoes putting a character up to the page bytes it blanks, except across a scroll, where the cursor ends a row too high |
| Console.Console.constructor | code/processes.c:43-44 | Three empty lines, terminal 0 shown and running with its cursor behind a prompt, the others' cursors at the top left, on each page what video memory holds; video_mem and the user mapping agree |
| Console.Console.TerminalSwitch | code/keyboard.c:166-233 | Changes the shown terminal and no console: pages, line buffers, indexes, video_mem and the user mapping move so that all three stay what they were; -1 exactly for the terminal already shown |
| Console.Console.Exchange | code/keyboard.c:200-214 | Saving one terminal's line and page and loading the other's touches nothing that belongs to the third |
| Console.Console.SwapPages | code/keyboard.c:213-214 | Two page copies: the shown page goes to the old terminal's backing page, the new one's backing page to the screen |
| Console.Console.SaveLine | code/keyboard.c:202-205 | The live line and its index become the terminal's saved ones |
| Console.Console.LoadLine | code/keyboard.c:208-211 | The saved line and its index become the live ones |
| Console.Console.MapVideo | code/keyboard.c:216-224 | video_mem and the user page entry point at page 0xB8 exactly when the running terminal is shown, else at that terminal's own page |
| Console.Console.NextTerminal | code/pit.c:75-100 | A tick moves the processor to the next terminal and leaves all three consoles as they are |
| Console.Console.PutC | code/lib.c:191-212 | Output of one character is output on the running terminal's console, wherever its page is |
| Console.Console.PutKey | code/lib.c:214-233 | The echo of a key is output on the shown terminal's console |
| Console.Console.RemC | code/lib.c:285-298 | Steps the shown cursor back, across a row start, and blanks the cell; nothing at the top left |
| Console.Console.ClearScreen | code/lib.c:37-41 | Clears the shown terminal's console only |
| Console.Console.CheckCursor | code/lib.c:249-255 | Blanks the cursor cell and the next one of the shown terminal only |
| Console.Console.DrawGlyph | code/lib.c:239-310 | Draws or undraws the cursor glyph in one cell of the shown terminal only |
| Console.Console.WriteChar | code/keyboard.c:89-101 | Appends to the shown terminal's line and fails exactly when the line refuses the character |
| Console.Console.DeleteChar | code/keyboard.c:109-117 | Drops the last character of the shown terminal's line and fails exactly on an empty one |
| Console.Console.ClearKeyboardBuf | code/keyboard.c:241-257 | Empties the shown terminal's line |
| Console.Console.CtrlHelper | code/keyboard.c:124-145 | Ctrl with a key: clear for L, otherwise type and echo, the echo even when the line is full |
| Console.Console.TypeTab | code/keyboard.c:65-71 | The loop types and echoes blanks until four are typed or the line is full |
| Console.Console.KeyboardHandler | code/keyboard.c:37-79 | Every key, in the handler's order of tests, does to the three consoles what it does to the shown one alone; Alt with F1, F2 or F3 shows terminal 0, 1 or 2, and no other key changes which one is shown |
| Console.Console.TerminalWrite | code/terminal.c:77-88 | Writes exactly the nbytes bytes to the running terminal's console and returns their number; -1 changes nothing |
| Console.Console.TerminalRead | code/terminal.c:29-75 | Waits unless the running terminal is shown and its line holds a newline; then delivers the typed line and empties it |
| Console.Console.WipeLine | code/system_call.c:410-417 | A halt wipes the running terminal's line; while it is hidden the index stays |
| Console.Console.RunEvents | code/keyboard.c:166-233 | Refinement: any sequence of ticks, output, keys, switches, reads, cursor blinks and halts leaves the shared pages, buffers and pointers standing for three independent consoles |
| Paging.PageTables.constructor | code/paging.c:7-148 | The directory and the two tables after initialisation, entry by entry |
| Paging.PageTables.MapImage | code/system_call.c:92-95 | Changes the one directory entry that maps the program page, to the frames of the pid |
| Paging.UserReach | code/paging.c:103-132 | Two-level translation: user code reaches exactly the program page, onto the pid's own 4 MB, and one video page, onto the given frame; every other address is absent or for the supervisor |
| Paging.WholeMap | code/paging.c:7-148 | The translation of every 32-bit address, by number: the process's 4 MB at 128 MB and the video page for user code, the kernel's 4 MB and four video pages in place for the kernel alone, and nothing else |
| Paging.ImagesAreDisjoint | code/paging.c:24-36 | The images of different pids share no physical address, and none lies in the first 8 MB |
| FileSystem.ConcatAt | code/file_system.c:90-101 | A byte of the concatenated blocks is the byte at the quotient and remainder by 4096 |
| FileSystem.ContentsAt | code/file_system.c:84-101 | A byte of a file, as a slice of its concatenated data blocks, is the byte the block walk fetches |
| FileSystem.U32Bytes | code/file_system.h:19-31 | A word of the disk is its four bytes, the lowest first |
| FileSystem.ContentsOnDisk | code/file_system.c:82-101 | Byte i of a file is the byte i % 4096 of the data block that word i / 4096 of the inode's block list names, and the file is as long as the inode's first word says, all by addresses in the image |
| FileSystem.EntryOnDisk | code/file_system.h:12-39 | The directory by addresses in the image: its size, and each entry's name, type and inode |
| FileSystem.CopyData | code/file_system.c:94-103 | The loop that reloads the block only at block boundaries copies the file's bytes from the offset on |
| FileSystem.ReadData | code/file_system.c:70-104 | Returns min(length, rest) and delivers exactly that slice of the file, each byte from the block that the inode's list names for it, by its address in the image; -1 exactly for an inode or an offset out of range, with the buffer untouched |
| FileSystem.LongerLengthDecides | code/file_system.c:34-40 | Comparing up to the longer length is equality: no prefix and no extension matches, and names that fill all 32 bytes work |
| FileSystem.StrNCmp | code/lib.c:554-568 | Zero exactly when the strings agree up to n or up to a common NUL, else the signed difference of the first bytes that differ |
| FileSystem.StrLen | code/lib.c:381-386 | The distance to the first NUL |
| FileSystem.NameMatches | code/file_system.c:34-40 | The test of the search loop holds exactly for equal names |
| FileSystem.ReadDentryByName | code/file_system.c:21-48 | Finds the first entry that carries exactly the name; none for an empty name or one of more than 32 bytes |
| FileSystem.ReadDentryByIndex | code/file_system.c:55-61 | The entry at an index, none at or behind the count |
| FileSystem.DirRead | code/directory.c:39-54 | Delivers the entry's name, at most 32 bytes, and moves the cursor by one; 0 at the end |
| Listing.NamesFindThemselvesIff | code/file_system.c:21-48 | Every listed name looks up the entry it was listed for if and only if the names are not empty and all different |
| Listing.List | syscalls/ece391ls.c:18-25 | The loop lists the entries in order, once each, up to the first empty name |
| Listing.ListedAllIff | syscalls/ece391ls.c:18-25 | That is the whole directory if and only if no name is empty |
| Listing.CursorStep | code/directory.c:22-54 | Only a directory read moves the one cursor, by one, and only closing a directory or halting with one open sends it to 0; opening does not |
| Listing.OneCursorForAll | code/directory.c:4-54 | However processes interleave, while none closes the directory, the names they get together are the entries from the cursor on, in order and once each, then nothing |
| Listing.WholeDirectoryIff | code/directory.c:4-54 | Over a run to the end of the directory in which nobody closes it, a process has been given every entry, in order, if and only if the cursor stood at the front when the run began and nobody else was given a name |
| Listing.ListsInOrderIff | code/directory.c:4-54 | Over any run, whoever opens, reads, closes or halts, and when the names are all different: what a process has been given is the front of the directory, in order, if and only if at each of its reads that gives a name the cursor is the number of names it has; it is the whole directory if and only if it also has as many names as there are |
| Listing.RewoundReaderRepeats | code/directory.c:22-25 | Once a process closes a directory or halts with one open, the next name given to anyone is the first one, so that whoever had a name before has a listing that is not the front of the directory |
| Listing.TwoReadersShare | code/directory.c:39-54 | Two processes that take turns on a directory of two entries get one each: neither is given the whole directory |
| Listing.StartDiskHasShell | code/system_call.c:60-72 | The disk of the two runs below, with the directory . and the program shell, is one that the kernel starts from |
| Listing.SharedCursorFails | code/system_call.c:262-268 | A failing run from the start: on that disk the shells of terminals 0 and 1 open the directory and read in turn, and each is given one of the two names |
| Listing.CloseRepeats | code/directory.c:22-25 | Another: the second shell opens and closes the directory between two reads of the first, which is given the first name twice |
| Listing.Cat | syscalls/ece391cat.c:21-28 | Reading 1024 bytes at a time until 0 terminates with the whole file |
| Processes.PushOk | code/system_call.c:76-90 | A new pid on a stack keeps the three stacks disjoint and standing on their base shells |
| Processes.PopOk | code/system_call.c:359-417 | A halt of a process that is not a base shell does too |
| ProcTable.ProcTable.constructor | code/pit.c:48-71 | The state after start-up: pids 0, 1 and 2 live as base shells of the three terminals |
| ProcTable.ProcTable.TakePid | code/system_call.c:76-90 | Takes the least free pid; cur_pid and the table stay when there is none |
| ProcTable.ProcTable.InitPcb | code/system_call.c:109-156 | A new process has the terminal on descriptors 0 and 1, six unused descriptors, its arguments and its parent |
| ProcTable.ProcTable.Spawn | code/system_call.c:76-156 | Starts a process on top of the running terminal's stack, or changes no process when the table is full |
| ProcTable.ProcTable.Respawn | code/system_call.c:369-375 | A halting base shell starts again in its own pid, with every other process untouched |
| ProcTable.ProcTable.Exit | code/system_call.c:362-412 | The halting process's pid is freed, its files are closed, its parent becomes active and current |
| ProcTable.ProcTable.CloseDescriptors | code/system_call.c:394-407 | Clears the two terminal descriptors and closes every open file |
| ProcTable.ProcTable.FindUnused | code/system_call.c:245-250 | The first unused descriptor from 2 on, 8 when there is none |
| ProcTable.ProcTable.Close | code/system_call.c:285-304 | Frees the descriptor and runs its driver's close; -1 exactly for descriptors that are not open |
| ProcTable.FreeIsFirstZero | code/system_call.c:78-84 | The first zero of pid_array is the least pid on no stack |
| Kernel.Kernel.constructor | code/pit.c:48-76 | Right after the fourth tick: three base shells, terminal 0 shown and running, page, stack and video mapping in step |
| Kernel.ParseCommand | code/system_call.c:35-58 | Splits a command line as the specification does: the first word, at most 128 bytes, and all that stands behind one separator |
| Kernel.Kernel.PitHandler | code/pit.c:32-118 | A tick saves the running process's context, passes the processor to the next terminal and switches in the context last saved by that terminal's active process; cur_pid, the program page, esp0, video_mem and the user video page all follow it |
| Kernel.Kernel.Dispatch | code/pit.c:78-107 | The running terminal's active process becomes current, with its page and its kernel stack |
| Kernel.Kernel.CheckProgram | code/system_call.c:61-74 | Accepts exactly the files that exist and start with the four ELF bytes |
| Kernel.Kernel.Execute | code/system_call.c:27-183 | A program starts on the least free pid on top of the caller; an unknown file gives -1 and a full table 69, and neither changes any process |
| Kernel.Kernel.Halt | code/system_call.c:359-434 | Frees only the running pid and resumes the parent where it called, with the status; a base shell is replaced by a new one in its own pid |
| Kernel.Kernel.SysHalt | code/system_call.c:17-21 | The parent gets a status in 0..255 |
| Kernel.Kernel.Fault | code/idt.c:101-118 | The parent gets 256, which no program can give |
| Kernel.Kernel.SysGetArgs | code/system_call.c:311-329 | Delivers the running process's arguments and a NUL exactly when there are any and they fit; otherwise -1 and an untouched buffer |
| Kernel.Kernel.SysVidmap | code/system_call.c:335-345 | Hands out the user video page for pointers in the 8 MB from 128 MB on, and fails for all others |
| Machine.VidmapPointerMappedIff | code/system_call.c:339-342 | An accepted pointer leads to user memory if and only if it lies in the program page or the mapped video page, and the four bytes stored through it if and only if the last one lies in the same page |
| Machine.VidmapAcceptsUnmapped | code/system_call.c:339-342 | The failing input: the first address behind the program page is accepted and not mapped |
| Kernel.Kernel.SysOpen | code/system_call.c:232-278 | Opens the exactly named file on the first unused descriptor, by its type; the clock starts at 2 Hz |
| Kernel.Kernel.SysClose | code/system_call.c:285-304 | Frees an open descriptor; the clock goes back to 1024 Hz, the directory cursor to 0 |
| Kernel.Kernel.SysRead | code/system_call.c:191-208 | Result, bytes and new state of a read through any driver, the position moved by the value returned |
| Kernel.Kernel.SysWrite | code/system_call.c:216-226 | Result and new state of a write through any driver |
| Kernel.Kernel.CallWrite | code/processes.c:8-41 | The write operation that the descriptor's type selects, with its result |
| Kernel.Kernel.Key | code/keyboard.c:37-79 | A key changes no process |
| Programs.ProgramHasItsTerminal | code/system_call.c:116-126 | Over every run after a successful execute, as long as the program lives, a write of n bytes through descriptor 1 returns n and prints them on its own terminal, and a read through 0 takes that terminal's line when it is shown and ready, and else waits |
| Programs.ProgramStartsClean | code/system_call.c:127-159 | A program starts with every call through descriptors 2 to 7 failing, and its first stack pointer in its own kernel stack |
| Programs.BaseShellIsReplaced | code/system_call.c:369-375 | When a base shell halts, all stacks, other processes, consoles, clock rates and the directory cursor stay; a new shell runs in its pid, without arguments or open files, on its own kernel stack and terminal, and resumes at the given place |
| Programs.ExecutableIff | code/system_call.c:61-74 | A name is accepted if and only if it is that of a file of at least four bytes that start 7F, E, L, F on the disk |
| Programs.ExecuteStartsIff | code/system_call.c:27-183 | Execute starts a process if and only if the command names such a program and a pid below 6 is free: the least one, on top of its parent, with the command's arguments and the given return place; otherwise nothing changes |
| Programs.OpenTakesLeast | code/system_call.c:236-246 | An open takes the least unused descriptor from 2 on, and fails, changing nothing, if and only if there is no such file or no such descriptor |
| Programs.OpenedFileIsRead | code/system_call.c:191-208 | Opened, and read in whatever pieces while all processes go on, a regular file is delivered from its first byte, as far as was asked for |
| Programs.ClockCalls | code/rtc.c:96-146 | An opened clock runs at 2 Hz, a read of it returns 0, and a write sets the rate and returns 0 if and only if its word is 2 to 1024, and else returns -1 |
| Programs.CloseUndoesOpen | code/system_call.c:285-304 | A close undoes an open: the next open gets the same descriptor, calls through it fail, a clock is back at 1024 Hz and the directory cursor at the front, and nothing else differs |
| Programs.HaltCloses | code/system_call.c:386-417 | A halting program leaves no descriptor open; its clock goes back to 1024 Hz and the directory cursor to the front exactly if it held one, and its terminal's line is emptied or, while hidden, overwritten with zeros |
| Programs.StaysTidy | code/system_call.c:398-404 | Over every run each pid but the base shells' either is live and holds a clock, or its rate is 1024 Hz |
| Programs.ProgramStartsAtFullRate | code/system_call.c:398-404 | So every program, whenever it is started, gets a clock of 1024 Hz, whichever programs had its pid before |
| Programs.BaseShellKeepsRate | code/system_call.c:369-375 | The exception: a base shell that opens a clock and halts leaves the new shell its 2 Hz without a clock descriptor |
| KernelRuns.StepFrame | code/system_call.c:27-434 | Every event changes only the top of the running terminal's stack, and only the process that runs or a pid no stack holds |
| KernelRuns.WaitingProcessesUntouched | code/system_call.c:359-434 | While a child lives, whatever all terminals do, the waiting processes below it keep descriptors, file positions, arguments, contexts and clock rates |
| KernelRuns.ResumeKept | code/system_call.c:145-153 | A process keeps the place its parent resumes at, and its arguments, for as long as it lives |
| KernelRuns.ParseSplits | code/system_call.c:36-60 | Leading spaces, a name of up to 128 bytes, one space or newline and any arguments are taken apart again; behind a name of 128 bytes any one byte is skipped, and a command may end behind its name |
| KernelRuns.ProgramKeepsItsArguments | code/system_call.c:136-140 | In every later state of its life a program's arguments are those of the command that started it |
| KernelRuns.ExecuteHaltBracket | code/system_call.c:359-434 | From a successful execute to its child's halt, over every interleaving: the parent is back exactly as it was, with its clock rate, at the place it called from, and only the child's pid is freed by the halt |
| KernelRuns.HaltFrees | code/system_call.c:364-411 | A halt frees its own pid and no other, and changes no other process |
| KernelRuns.ThreeTurns | code/pit.c:74-76 | In any three ticks each terminal runs once |
| KernelRuns.RoundRobin | code/pit.c:74-79 | Over any run ticks alone decide which terminal runs |
| KernelRuns.IdleTerminalUntouched | code/pit.c:32-118 | Until its next turn nothing on a terminal changes, neither its stack nor its processes |
| KernelRuns.SwitchInRestoresContext | code/pit.c:36-46 | The third tick after a process was switched out switches the same process in with exactly the context saved then |
| Displays.KernelRunOnConsoles | code/system_call.c:191-226 | The terminals of any run of the kernel make the run of the consoles on its ticks, keys, terminal output, line reads and halts |
| Displays.KernelConsolesIndependent | code/keyboard.c:166-233 | So in every run of the kernel each console ends as if it had been alone with its own share of the events |
| Displays.KernelShownTerminal | code/keyboard.c:166-193 | In every run of the kernel the shown terminal is the one that the last Alt with F1, F2 or F3 named, or the first one when there was none |
| Displays.KeyIsTyped | code/keyboard.c:45-58 | A key that the shown line accepts goes onto that line and that screen, whichever terminal runs, and changes nothing else |
| Displays.KernelConsoleShowsOwnText | code/lib.c:191-233 | And one that started clear shows the text of its own output and typing, as far as that text is followed |
| Machine.ParentChainsAreLivePids | code/system_call.c:76-134 | In every valid state the parent links from the three active pids are acyclic, disjoint, end at the base shells 0, 1 and 2, and cover exactly the pids marked in pid_array |
| Machine.UserMemory | code/pit.c:88-106 | In every valid state user code reaches exactly the running process's own 4 MB and one video page: the screen if its terminal is shown, that terminal's page if not |
| Machine.MemoryMap | code/pit.c:88-106 | The same whole map in every valid state, for the running process and the page of its terminal |
| Machine.KernelStacksApart | code/pit.c:106 | In every valid state the 8 KB kernel stacks of different live processes are disjoint and mapped for the kernel alone, and esp0 is 4 bytes below the top of the running process's own, at 8 MB - 8 KB * pid - 4 |
| Machine.HandleEvent | code/system_call.c:17-434 | One event of the kernel is one step of the specification and keeps the kernel valid |
| Machine.RunEvents | code/system_call.c:17-434 | Any run of the kernel is a run of the specification and ends in a valid state |
| FileRuns.ReadStep | code/system_call.c:191-208 | A read of an open file returns its driver's bytes and leaves the position behind them |
| FileRuns.OtherStep | code/system_call.c:191-304 | No other event moves an open descriptor |
| FileRuns.ReadsAreTheFile | code/system_call.c:191-208 | For any non-negative sizes, interleaved with anything other processes do, the bytes read concatenate to the file from the start position, as long as the sizes asked for but no longer than the file |
| FileRuns.PositionTracksIff | code/system_call.c:203-205 | The position moves by exactly the bytes delivered if and only if the size is not negative: the -1 of a failed read is added too |
| UserFile.Stream.Read | code/file.c:35-39 | What a read of an open file means to a program: the next bytes, at most n, and the position behind them |
| Grep.StrCpy | syscalls/ece391support.c:14-17 | The forward copy within one buffer moves the string down, NUL included, also when the two places overlap, and writes nowhere else |
| Grep.LinesAreTheFile | syscalls/ece391grep.c:26-79 | The lines of a file hold no newline, and with their newlines they are the file, but for one behind a last line that has none |
| Grep.ContainsIff | syscalls/ece391grep.c:49-56 | A line is a hit exactly when the pattern is not empty and stands somewhere in it |
| Grep.HitsAreInOrder | syscalls/ece391grep.c:47-60 | The hits are exactly the lines that contain the pattern, in their order and once each |
| Grep.StrNCmp | syscalls/ece391support.c:35-46 | Zero exactly when the pattern stands at that place; always zero for an empty pattern |
| Grep.FindLineEnd | syscalls/ece391grep.c:30-32 | Stops at the first newline of the window or at its end |
| Grep.SearchLine | syscalls/ece391grep.c:42-51 | Finds a match exactly when the line contains the pattern and the pattern starts with a byte from 1 to 127: its first byte is compared as a signed char, so that a higher one, like an empty pattern, matches nothing |
| Grep.EndLine | syscalls/ece391grep.c:40-51 | Prints the line once if that search finds the pattern in it |
| Grep.CarryOver | syscalls/ece391grep.c:33-38 | The unfinished line is moved to the front of the buffer, byte for byte |
| Grep.LineRound | syscalls/ece391grep.c:29-57 | One round searches one line or carries it over; what was printed and what is still to be searched together stay the whole file's |
| Grep.ScanWindow | syscalls/ece391grep.c:28-57 | One window searches its lines and leaves only the unfinished one |
| Grep.NextWindow | syscalls/ece391grep.c:21-60 | One read and its window advance through the file |
| Grep.DoOneFile | syscalls/ece391grep.c:9-66 | For every NUL-free file, with the windows where they fall: terminates, and prints exactly the pieces that contain the pattern, in order, once each, or nothing for an empty pattern or one that starts with a byte from 0x80 on; a piece is a line, cut after every 1024 bytes, and at the window end while data[1024] holds a newline from before |
| GrepExact.PiecesOrSplit | syscalls/ece391grep.c:20-60 | Without such a newline the pieces are the lines, up to empty ones, exactly when no line exceeds 1024 bytes; else some line is cut |
| GrepExact.WindowOrSplit | syscalls/ece391grep.c:30-38 | With one, the same holds exactly when it takes effect at the end of a line |
| GrepExact.FindablePatternsExact | syscalls/ece391grep.c:20-60 | For such a file and a pattern that starts with a byte below 0x80 grep prints exactly the matching lines |
| GrepExact.OtherPatternsExactIff | syscalls/ece391grep.c:43 | For any other pattern grep prints nothing, which is right if and only if no line contains the pattern |
| GrepExact.SignedByteMissed | syscalls/ece391grep.c:10-43 | The failing input: a file of the one byte 0xE9, searched for that byte, gives nothing |
| GrepExact.GrepPrintsMatchingLinesIff | syscalls/ece391grep.c:20-60 | For a NUL-free file grep prints exactly the matching lines, for every pattern, if and only if all its bytes are below 0x80, no line exceeds 1024 bytes and a newline already in data[1024] takes effect at the end of a line |
| Frames.Fetch | fish/fish.c:102-116 | Per file and column: the row's character, or a newline from the row's end on, the end of file noted when it ends the row |
| Frames.AddRow | fish/fish.c:99-146 | One row of both files, in column order, padded to the longer row, both files left at their next rows |
| Frames.AddFrames | fish/fish.c:79-148 | Reads both files to their ends, terminates, and asks for exactly the merged cells, also when row counts and widths differ |
| Fish.SeparateIff | fish/fish.c:122-127 | The locations asked for are on the screen, not 0 and all different if and only if every character shown has such a place of its own |
| Fish.NarrowIsPlaced | fish/fish.c:122-127 | Frames of at most 80 columns whose last place is on the screen have such places |
| Fish.WideRowCollides | fish/fish.c:122-127 | The failing case: a character 80 columns on in a row asks for the place of one in the next row |
| Fish.AddAll | fish/fish.c:126 | From an empty list, adding such requests puts them all into the list, the last one in front, and each shows its on character |
| Fish.Play | fish/fish.c:36-44 | From the empty list, reading both files, adding what they show and n ticks leave the screen showing the first frame when n modulo 30 is below 15 and else the second, wherever either shows something, and every other byte as it was |
| Frames.CellsMerge | fish/fish.c:122-127 | The cells are exactly the positions where either padded frame is not a space, in row-major order, once each, with the right pair of characters |
| Frames.RowsJoin | fish/fish.c:98-148 | The rows of a frame hold no newline, and joined by newlines they are the file |
| Blink.InsertKeepsIff | fish/fish.c:160-170 | An insertion keeps the list acyclic with its nodes exactly the slots that look used, if and only if the location is not 0 |
| Blink.LocationZeroMakesCycle | fish/fish.c:163-166 | After a node at location 0 the next insertion takes the same slot and links it to itself: no walk of the list ends |
| Blink.SlotsConserved | fish/fish.c:160-175 | Nodes and free slots are 2000 together; a slot is free if and only if there are fewer than 2000 nodes |
| Blink.FirstAt | fish/blink.S:351-379 | The first node at a location |
| Blink.LitByPhase | fish/blink.S:64-86 | For all 16-bit lengths a blinker is lit after n ticks exactly when n modulo its period falls in the on part; the signed test makes lengths of 0 and above 32768 last one tick |
| Blink.SyncedStayInStep | fish/blink.S:267-275 | After a sync source and target have the same status and countdown at every later tick |
| Blink.SeenByPhase | fish/blink.S:68-81 | After n ticks the screen shows the on character of a new blinker in the on part of its period and the off character in the rest |
| Blink.RunShows | fish/blink.S:49-99 | Over any number of ticks every blinker's place shows its face, when no two share a place |
| Blink.SyncShowsIff | fish/blink.S:277-285 | After a sync the screen is right if and only if the source was dark or the target looks the same lit and dark: the off character is always drawn |
| Blink.BlinkList.Malloc | fish/fish.c:160-170 | The first slot with location 0, or none exactly when no slot has it |
| Blink.BlinkList.Add | fish/blink.S:105-184 | Push-front of the started node, drawn lit; fails exactly for a location off the screen or a full pool, changing nothing |
| Blink.BlinkList.FindHelper | fish/blink.S:351-379 | The slot of the first node at the location, or NULL |
| Blink.BlinkList.Find | fish/blink.S:302-349 | The first node at the location, if there is one |
| Blink.BlinkList.Remove | fish/blink.S:187-237 | Removes the first node at the location and frees its slot; -1 changes nothing |
| Blink.BlinkList.Sync | fish/blink.S:240-299 | Copies rhythm and phase of the first node at the high half's location to the first at the low half's, keeps its looks; -1 exactly when one is missing |
| Blink.BlinkList.Tasklet | fish/blink.S:49-99 | Every node ticks once and the nodes that change over are drawn, front to back |
| Blink.BlinkList.HandleAll | fish/blink.S:101-237 | Over every sequence of calls in which no node at location 0 finds a free slot, the pool holds one acyclic list, of at most 2000 nodes, that refines the list operations |
| Args.WordsAreRuns | syscalls/ece391emulate.c:88-98 | Without a newline the words are maximal runs of other bytes: the command is these words with gaps of spaces around them |
| Args.RunsAreWords | syscalls/ece391emulate.c:88-98 | No other words have that property |
| Args.NewlineSeparatesIff | syscalls/ece391emulate.c:85-98 | A newline right behind a word separates it from the words behind; any other newline ends the command |
| Args.ArgsAreNameAndWords | syscalls/ece391emulate.c:73-98 | The arguments of every command are its name up to the first space or newline, with ./ put before it, and the words behind |
| Args.ArgsAreRuns | syscalls/ece391emulate.c:85-98 | Without a newline these words are the maximal runs of what stands behind the name |
| Args.JoinOfBoth | syscalls/ece391emulate.c:138-157 | Arguments are joined by one space |
| Args.SplitOfJoin | syscalls/ece391emulate.c:138-157 | Splitting joined arguments gives them back |
| Args.WordsSurvive | syscalls/ece391emulate.c:80-157 | Whatever the command, with newlines too, the words that are passed survive joining and a second split |
| Args.Split | syscalls/ece391emulate.c:76-100 | In place: every argument ends as a string in the buffer, the program name behind ./, at most 513 in all; refused exactly for more than 1023 bytes |
| Args.SplitWords | syscalls/ece391emulate.c:88-98 | The loop over the arguments leaves the words as strings and does not disturb the earlier ones |
| Args.OverrunsIff | syscalls/ece391emulate.c:140-147 | A copy ends exactly at the buffer's end if and only if some of the arguments, joined, have that length |
| Args.GetArgs | syscalls/ece391emulate.c:132-157 | Succeeds exactly when the joined arguments and a NUL fit, and then delivers them; writes nothing outside but one NUL behind the buffer, exactly in the case above |
| Rtc.WakePointsCount | code/rtc.c:67-72 | The wake points in n ticks after count c are the difference of two quotients |
| Rtc.WakePointsRounded | code/rtc.c:67-72 | Any n ticks hold n/P wake points, rounded down or up, wherever they start |
| Rtc.ExactFrequencyIff | code/rtc.c:64-72 | A frequency is met exactly in every 1024 ticks if and only if it divides 1024 |
| Rtc.WaitEndsAtWakePoint | code/rtc.c:62-73 | Under any interleaving with other terminals a terminal counts every tick and its wait ends with the first wake point |
| Rtc.ReadWakesWithinPeriod | code/rtc.c:118-126 | A blocked read still waits after n ticks exactly while n is short of the next multiple of the period: at most one period |
| Rtc.Driver.Handler | code/rtc.c:53-89 | One hardware tick for all three terminals, and the cursor put at every 1024th and removed at every other 512th count |
| Rtc.Driver.Read | code/rtc.c:118-126 | Blocks for the rest of the current period, at least one tick |
| Itoa.NumeralUnique | code/lib.c:326-356 | A value has one numeral: digits that denote it, without a leading zero |
| Itoa.DigitCharacters | code/lib.c:326-356 | The digits are the characters 0 to 9 and A to Z in order |
| Itoa.ValueOfPlaces | code/lib.c:326-356 | Places count from the right: a numeral in front of another is worth its value times the radix for each place of that one |
| Itoa.ReversedDenotes | code/lib.c:344-355 | The digits written from the lowest up, reversed, denote the value |
| Itoa.WordFits | code/lib.c:326-352 | 32 digits are enough for every 32-bit value in every radix |
| Itoa.PutDigits | code/lib.c:344-349 | The loop writes digits that denote the value from the lowest up, the highest not zero, within the places the radix needs |
| Itoa.StrRev | code/lib.c:362-375 | Reverses the string in place and writes nowhere else |
| Itoa.Itoa | code/lib.c:326-356 | Writes the numeral of every 32-bit value, in every radix from 2 to 36, terminated, within the room it needs, and nothing else |
| Itoa.PutHex | code/lib.c:98-115 | The alternate form always shows exactly eight digits that denote the value |
| Itoa.PutSigned | code/lib.c:131-143 | The numeral of the magnitude, behind a minus sign exactly for negative values |

## Left out

- Kernel.ParseCommand: is stated for argument strings of fewer than 128 bytes; a longer one makes the code write one byte behind its two buffers (code/system_call.c:59 and code/system_call.c:140), and what lies there is not part of this model.
- Kernel.Kernel.Execute: the same bound on the arguments; the copy of the program into its frames, the register values pushed for the first entry and the instruction that enters user mode are not modelled.
- Kernel.Kernel.SysRead: descriptor number 8 passes the bound test in the code; the model reports it as its own outcome and changes nothing, since what lies behind the descriptor table is not part of this model.
- Kernel.Kernel.SysWrite: the same for descriptor number 8; bytes behind a short buffer, of which a clock write reads four, are excluded.
- Kernel.Kernel.PitHandler: says nothing about the value of prev_pid; parents are stated through the process control blocks.
- Kernel.Kernel.Fault: the message and the screen clear of an exception are not modelled; the clear hits the shown terminal, whichever process faulted.
- Kernel.Kernel.SysVidmap: the store through the user's pointer is the returned value.
- Console.Console.TerminalRead: one pass of the polling loop and the copy behind it are one step; a switch between the last test and the copy is not modelled.
- Rtc.Driver.Handler: counters are unbounded; the wrap of a signed 32-bit counter is not modelled.
- Rtc.Driver.Read: the clock's blocking is modelled here; in the kernel's runs a clock read returns at once.
- Machine.HandleEvent: a clock read returns at once and a halt carries no status, as in Machine.RunEvents.
- Machine.RunEvents: a halt carries no status in a run; the status is stated by Kernel.Kernel.SysHalt and Kernel.Kernel.Fault.
- UserFile.Stream.Read: a negative count, which the programs modelled here never ask for, is not part of it.
- Grep.DoOneFile: is stated for files without a NUL byte, on which a line is also a C string; the file name printed before each line, and failing opens and reads, are not modelled.
- Typing.RunShowsOwnText: ends at a drawn cursor glyph or a backspace that finds no ordinary character of the text; from there on the screen is no longer the layout of a text, and what each step does to it is Typing.EraseShows, Typing.BackspaceUndoesIff and Console.Console.RunEvents.
- Typing.ActionsShow: the same two ends.
- Displays.KernelConsoleShowsOwnText: ends at such a backspace.
- Listing.WholeDirectoryIff: is stated for runs without a close; Listing.ListsInOrderIff is stated for all runs.
- Blink.BlinkList.HandleAll: excludes an add at location 0 that finds a free slot; Blink.LocationZeroMakesCycle states what such an add does.
- Grep.EndLine: the file name and the colon printed before the line are not modelled.
- Fish.Play: is stated for frames that give every character a place of its own; the later calls of fish on one more character are the calls of Blink.BlinkList.HandleAll.
- Frames.AddFrames: a file that cannot be opened ends the program in the code; both files are open here, and row and column numbers are unbounded.
- Blink.BlinkList.Add: the copies between user structures and slots are assignments; the status word is its bit 0.
- Itoa.PutSigned: the magnitude of the least signed number is its mathematical value.
- Port I/O, interrupt controllers, descriptor tables, boot and multiboot parsing.
- The scan-code tables of get_key: key events with their flags are the input.
- The boot phase before the fourth tick, where shells take pids 0 to 2.
- Real registers and stack contents, and interrupts inside a handler.
- The contents of user memory.
- printf's walk over its arguments beyond the number formats; handler and signal system calls that only return -1; demo programs.
