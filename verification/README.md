# BlockOS, verified

BlockOS is a small i386 kernel written in C. This project models its file systems, its line editor, its scheduler, its
line drawing, its package installer, its page tables, its pipes and queues, its keyboard driver, its checksum, its number
conversions and its access control, and proves what they keep, compute and promise. `dafny verify dfyconfig.toml` checks
everything.

Code that changes things step by step is modelled by classes and methods over arrays, linked objects and counters that are
changed in place, with the loops of the original. Each such method is proved against a function or a predicate on plain
values; the theorems are lemmas about those, most of them about all states or all runs.

| part | files |
|---|---|
| C memory, strings, tokens, heap | Options, Collections, Words, Division, Bits, CMemory, CStrings, Tokenizing, Strtok, KernelHeap |
| RAMFS: the tree | PathTree, PathTreeRemoval, RamfsSpec, Ramfs, RamfsReach, RamfsExamples |
| RAMFS: the bytes | FileContents, RamfsData |
| line editor | LineEditor, FlatEditor, EditorRuns, EditorExamples, EditBuffer, BlockEdit |
| scheduler | RoundRobin, TimeSlices, Scheduler |
| line drawing | LinePoints, DrawLine |
| package installer | PackageGraph, PackageClosure, Packages |
| page tables | PageMap, TableLayout, PageTables |
| pipes and message queues | RingBuffer, Ipc |
| keyboard | KeyDecoder, KeyboardMachine, Keyboard |
| Internet checksum | Checksum |
| numbers as text, snprintf | Numerals, NumberText, Snprintf |
| access control | AccessPolicy, BlockSec |
| process file system | ProcDirs, ProcFs |

How the parts of the machine appear:

- Characters and bytes in memory are arrays, and addresses are indices. 32-bit counters wrap around explicitly; where the
  model uses unbounded numbers, an invariant bounds them.
- RAMFS inodes and procfs entries are objects with the pointer fields of the original. `Shape` says what tree the pointers
  spell out, as values, and `Holds` that the fields are those values.
- The kernel heap is one array with a pointer that only moves up. File contents lie in it as bytes; page tables lie in it
  as 32-bit words, the word at address a being number (a - base) / 4.
- Whether `malloc` finds memory for an inode of the RAMFS tree is a parameter, and so is the number of procfs entries there
  is memory for. For file contents, handles and page tables it follows from the heap pointer.
- Interrupts are events that may come between any two steps of the reader of the keyboard: the test of the polling loop,
  the load of the character, the computation of the next head and its store. The handler itself is not interrupted.
- The clock of the access log and the scancode from the port are parameters.
- The arguments of `snprintf` are a list of typed values.
- kernel/process.h is not part of this model; a time slice is taken to be a signed number, and the states of a process to be
  those named elsewhere in the sources, of which only ready matters to the scheduler and only dead to procfs.

Facts about the code that its comments do not mention, and that the members named here state exactly:

- `ramfs_delete` takes directories with everything in them; the counters then no longer count what is there
  (`RamfsSpec.DeleteCounters`). `ramfs_create_symlink` accepts any node as parent.
- A path that ends in a slash creates a child without a name that no path finds. Deleting the same path then deletes the
  directory in front of the slash, and is refused only when that is the root (`RamfsSpec.SlashDeletesDirectory`).
- Joining two long lines cuts text off (`EditorRuns.JoinLosesText`).
- `malloc` accepts sizes so large that the 32-bit sum wraps around (`KernelHeap.Heap.Malloc`).
- `vmm_get_phys` does not look at the present bit of a page, so `vmm_is_mapped` says yes for most addresses of an unmapped
  page (`PageMap.MappedAfterUnmap`).
- A process that is running and not ready, blocked or even dead, is made ready at the end of its slice if and only if another
  one can be selected (`Scheduler.YieldUnready`, `Scheduler.TickUnready`).
- Removing a package that others depend on leaves them without it for good: installing them again does nothing
  (`PackageClosure.RemoveKeepsClosedIff`, `PackageClosure.RemovedStaysMissing`).
- `procfs_update` takes new memory every time, so processes vanish from procfs after enough updates
  (`ProcDirs.ProcessVanishes`).
- Caps lock shifts digits and signs as well (`KeyDecoder.CapsIsShift`).
- `find_entry` reports the pid of a directory even when the file asked for in it does not exist (`ProcFs.PidOfLast`).
- `snprintf` does not know widths: the line numbers of the editor, "%4d", are all the letter d
  (`Snprintf.WidthPrintsLetter`).
- `itoa` writes a lone minus sign for the least number (`NumberText.AtoiOfItoaIff`) and nothing at all for negative numbers
  in bases other than ten (`NumberText.Itoa`).
- A rule whose name has more than 63 characters cannot be removed by that name (`AccessPolicy.RemoveUndoesAddIff`).
- The text of gui/gui.h does not declare `gui_draw_line`; the model follows the definition in gui/gui.c, with the screen
  size of the header.

## Model

| member | source | states |
|---|---|---|
| `CMemory.Memmove` | libc/libc.c:38-44 | whatever the overlap, afterwards the destination holds the source as it was before, and no other cell has changed |
| `CMemory.MovedCells` | libc/libc.c:38-44 | cell by cell: inside the destination the old cells of the source, elsewhere no change |
| `CMemory.Memcpy` | kernel/generic.c:44-49 | the same unless the destination lies above an overlapping source; then the copied area repeats itself with the distance of the two as its period |
| `CStrings.Strlen` | kernel/generic.c:60-64 | the number of characters before the first NUL |
| `CStrings.Strcmp` | kernel/generic.c:66-69 | zero exactly for equal strings, otherwise the difference of the codes at the first position where they differ, a NUL counting as 0 |
| `CStrings.Strncpy` | kernel/generic.c:85-90 | the source cut to n and padded with NULs; a string equal to the source when it is shorter than n |
| `Strtok.Tokenizer.Next` | kernel/generic.c:131-145 | each call returns the first token of what is left, and what is left afterwards has exactly the other tokens; null when and only when there are none |
| `Strtok.CutToken` | kernel/generic.c:136-144 | the scanning loops and the NUL between them: the token is a string of its own in place, and nothing before the start is touched |
| `Strtok.AllTokens` | kernel/generic.c:131-145 | a first call and then calls with a null pointer until one returns null: the strings returned are all the tokens of the original string, in order |
| `Tokenizing.TokensAreMaximalRuns` | kernel/generic.c:131-145 | the tokens are the maximal delimiter-free runs of the original string, every one of them, in order (section 7.24.5.8 of ISO C11) |
| `Tokenizing.SpansAreMaximalRuns` | kernel/generic.c:131-145 | their positions are exactly the maximal runs, left to right and disjoint |
| `Tokenizing.TokensNonEmpty` | kernel/generic.c:136-142 | no token is empty |
| `KernelHeap.Heap.Malloc` | kernel/generic.c:12-19 | refused exactly when the 32-bit sum exceeds the heap; the block lies inside the heap, and the pointer moves past it, if and only if that sum did not wrap around |
| `KernelHeap.WrappedRequest` | kernel/generic.c:14-17 | an input for that: 4 bytes and then 2^32 - 1 are both granted, the second at address 4, where the pointer stays |
| `KernelHeap.Heap.Realloc` | kernel/generic.c:21-27 | a new block that starts with the bytes of the old one, or plain malloc when there is none; nothing below the old heap pointer changes, and nothing at all when it fails |
| `Ramfs.SplitAtLastSlash` | fs/ramfs.c:10-26 | the loop finds the last slash: parent and name are what lies before and behind it, the parent "/" when it is the first character or missing |
| `RamfsSpec.SplitPathComps` | fs/ramfs.c:10-26 | the components of a path are those of the parent split_path gives followed by the name, none when the name is empty; the name has no slash |
| `Ramfs.FindChild` | fs/ramfs.c:58-67 | the first entry of that name in the child list |
| `Ramfs.FindInode` | fs/ramfs.c:48-73 | for every path shorter than 1023 characters, strtok and the pointer walk find exactly the node that following the components in the tree leads to |
| `PathTree.PathUnique` | fs/ramfs.c:48-73 | two paths that find the same node have the same components |
| `PathTree.WalkDepth` | fs/ramfs.c:48-73 | every step of a lookup goes one level down, so no lookup runs in a circle |
| `Ramfs.AddChild` | fs/ramfs.c:76-81 | the child knows its parent and the old head of the list, and becomes the head; no other pointer changes |
| `Ramfs.AddedShape` | fs/ramfs.c:76-81 | those pointers are the ones of the same lists with the child in front of its siblings |
| `PathTree.InsertWellFormed` | fs/ramfs.c:76-81 | a tree in which every node but the root is in exactly one list, that of its parent, remains one |
| `PathTree.LookupAfterInsert` | fs/ramfs.c:76-81 | of all lookups, the new path finds the new node, paths beyond it find nothing, and every other one finds what it found before |
| `Ramfs.CreateNode` | fs/ramfs.c:119-136 | the shared steps of the three creations: nothing happens for a missing parent, a parent that is no directory (unless a symlink is made) or lack of memory; otherwise the pointers spell out the tree with the new node |
| `Ramfs.RamFs.constructor` | fs/ramfs.c:84-101 | a root alone, with no files and one directory counted |
| `Ramfs.RamFs.CreateFile` | fs/ramfs.c:119-136 | the heap of inodes still spells out a tree; tree, result and file counter are what the specification makes of the old ones; the new inode takes the next number, so that no two have the same until the number wraps around |
| `Ramfs.RamFs.CreateDir` | fs/ramfs.c:139-156 | the same with the directory counter |
| `Ramfs.RamFs.CreateSymlink` | fs/ramfs.c:159-176 | the same without a counter and without asking what the parent is; the target is cut to its field |
| `Ramfs.RamFs.FindPath` | fs/ramfs.c:179-181 | the node the components of the path lead to, null when there is none |
| `Ramfs.Unlink` | fs/ramfs.c:283-290 | the list surgery in place: the pointers become those of the same lists without that one node |
| `Ramfs.RamFs.DeletePath` | fs/ramfs.c:276-303 | false exactly for an unknown path and for the root; otherwise the node and all below it are no longer in the tree, which the pointers still spell out |
| `PathTreeRemoval.RemoveWellFormed` | fs/ramfs.c:283-290 | what remains is again a tree |
| `PathTreeRemoval.LookupAfterRemove` | fs/ramfs.c:283-290 | every lookup through the removed node continues from the sibling of the same name it was shadowing, if any; every other lookup is unchanged |
| `PathTreeRemoval.RemoveUndoesInsert` | fs/ramfs.c:76-81 | taking out the node just put in gives back the very same tree, a shadowed namesake included |
| `RamfsSpec.LookupAfterCreate` | fs/ramfs.c:119-136 | after a creation every path of the file system: the new path finds exactly the new node, extensions of it nothing, all others what they found before; with an empty name no lookup changes |
| `RamfsSpec.CreateChangesExactly` | fs/ramfs.c:119-176 | a creation succeeds if and only if there is memory and the parent exists, and is a directory unless a symlink is made; then the new node, of that kind and without children, is first in the list of its parent, its counter goes up and nothing else changes; otherwise nothing changes |
| `RamfsSpec.LookupAfterDelete` | fs/ramfs.c:276-303 | deleting any existing path but the root succeeds, and every path finds what it should afterwards, shadowed namesakes reappearing |
| `RamfsSpec.DeleteChangesExactly` | fs/ramfs.c:276-303 | a deletion succeeds if and only if the path finds a node other than the root; the siblings stay in their order, every other list is unchanged, and exactly the nodes below the deleted one are gone; a refused one changes nothing |
| `RamfsSpec.DeleteUndoesCreate` | fs/ramfs.c:276-303 | create followed by delete of the same path restores the whole tree and both counters if and only if the path does not end in a slash |
| `RamfsSpec.SlashDeletesDirectory` | fs/ramfs.c:10-26 | with a slash at the end the deletion takes out the directory in front of the slash, unless that is the root: then it is refused and nothing changes |
| `RamfsExamples.SlashTakesTheDirectory` | fs/ramfs.c:276-303 | an input for the first: mkdir /a, create /a/ and delete /a/ in a fresh file system leave no directory |
| `RamfsExamples.NamelessNodeInTheRoot` | fs/ramfs.c:276-303 | and for the second: create / succeeds, delete / is refused |
| `RamfsSpec.CreateKeepsCounters` | fs/ramfs.c:132-133 | both counters stay the exact numbers of files and directories in the tree |
| `RamfsSpec.DeleteCounters` | fs/ramfs.c:298-299 | after a deletion the counters are exact if and only if no file and no directory hung below the deleted node |
| `RamfsExamples.CountersLie` | fs/ramfs.c:298-299 | an input where they are not: mkdir /a, create /a/b and delete /a in a fresh file system |
| `RamfsSpec.ChildlessHasNothingBelow` | fs/ramfs.c:276-303 | so deleting childless nodes keeps them exact |
| `RamfsSpec.Run` | fs/ramfs.c:119-303 | every run of creations and deletions, successful or not, leads from a tree to a tree |
| `RamfsSpec.CounterAfterRun` | fs/ramfs.c:119-303 | after every run each counter is the number of nodes of its kind in the tree plus the number that deletions have cut off below other nodes, modulo 2^32 |
| `RamfsSpec.CountersExactIff` | fs/ramfs.c:119-303 | so both are exact after a run if and only if it has cut off no file and no directory in this way |
| `RamfsSpec.RunKeepsCounters` | fs/ramfs.c:119-303 | in particular when every deletion that is not refused hits a childless node |
| `RamfsSpec.FreshIsTree` | fs/ramfs.c:84-101 | the initial state is such a tree with exact counters |
| `RamfsReach.ReachableIffInTree` | fs/ramfs.c:48-81 | the inodes that can be reached from the root by any sequence of children and next pointers are exactly the nodes of the tree |
| `RamfsData.Grow` | fs/ramfs.c:231-237 | when a buffer moves to a new heap block every file still has its bytes, and the grown one starts with its old ones; a failure changes nothing |
| `RamfsData.StoreAmongAll` | fs/ramfs.c:225-247 | the store splices the bytes into that one file, wherever its buffer now lies, and leaves all other files and the separation of the buffers intact |
| `RamfsData.Fetch` | fs/ramfs.c:211-222 | size - position cannot underflow, and the buffer receives the stretch of the file at the position |
| `RamfsData.Read` | fs/ramfs.c:211-222 | position and bytes delivered are those of reading an abstract file; every handle stays within its file |
| `RamfsData.Write` | fs/ramfs.c:225-247 | all of the data is written, or nothing when the heap is full; the contents of all files and the positions of all handles are the abstract ones |
| `RamfsData.Seek` | fs/ramfs.c:250-254 | succeeds exactly up to the end of the file and otherwise leaves the position |
| `RamfsData.Open` | fs/ramfs.c:193-201 | a new handle at the start of the file, or null when the heap is full; contents and the other handles are not affected by its memory |
| `RamfsData.NewFile` | fs/ramfs.c:29-45 | a new file is empty and has no buffer, or null when the heap is full; the other files and all handles stay as they are |
| `RamfsData.AllocateElsewhere` | kernel/generic.c:12-19 | memory that somebody else takes from the heap and fills with anything leaves the contents of all files and the handles as they are |
| `FileContents.SpliceChangesExactly` | fs/ramfs.c:239-244 | a write changes exactly the bytes [pos, pos + n) |
| `FileContents.WriteChangesExactly` | fs/ramfs.c:225-247 | a write through a handle puts its bytes at the position, moves the handle behind them and changes nothing else; it is refused if and only if the file would have to grow and the heap is full |
| `FileContents.ReadShortOnlyAtEnd` | fs/ramfs.c:211-222 | a read delivers the bytes from the position on, fewer than asked for only when it reaches the end of the file |
| `FileContents.SeekThenRead` | fs/ramfs.c:250-254 | a seek within the file decides where the next read begins; one beyond the end changes nothing |
| `FileContents.WrittenIsReadBack` | fs/ramfs.c:211-254 | what was written through one handle is read back through any other on the file after a seek to its place |
| `FileContents.StepSound` | fs/ramfs.c:211-254 | each operation keeps every handle at most at the end of its file and shortens no file |
| `FileContents.Run` | fs/ramfs.c:211-254 | so does every run, through any number of handles |
| `FileContents.ReadsAreContiguous` | fs/ramfs.c:211-222 | the reads of a handle, put together, are one contiguous slice of the file, whatever other handles read or write elsewhere in between |
| `FileContents.ReadsDeliver` | fs/ramfs.c:211-222 | and deliver together exactly what they ask for together, or all that was left |
| `BlockEdit.Editor.constructor` | texteditor/blockedit.c:26-33 | one empty line with the cursor at its start |
| `BlockEdit.Editor.InsertChar` | texteditor/blockedit.c:59-83 | through memmove and the line-shifting loops the line arrays show the line list with a break, up to four spaces or the character at the cursor; modified is set exactly when the text or cursor changed |
| `BlockEdit.Editor.DeleteChar` | texteditor/blockedit.c:85-103 | likewise the list without the character before the cursor, or with two lines joined |
| `BlockEdit.Editor.MoveCursor` | texteditor/blockedit.c:105-115 | the clamped cursor, which is among the thirty lines shown afterwards; the view stays when it already shows the cursor, and otherwise has it in the first or the last line |
| `LineEditor.MoveIsNearest` | texteditor/blockedit.c:105-115 | the cursor goes to the existing line nearest to the one asked for, and in it to the existing column nearest to the one asked for |
| `LineEditor.KeysThatInsert` | texteditor/blockedit.c:130-136 | with room, exactly the characters from the space to code 127 and the line break have an effect, and the character stands where the cursor was |
| `BlockEdit.Editor.HandleKey` | texteditor/blockedit.c:130-136 | every key leaves the editor in the state of the abstract step and the view where it was; modified is set by Backspace and by every key that changes text or cursor |
| `LineEditor.StepOk` | texteditor/blockedit.c:59-115 | every event keeps the cursor within the text, the lines within their buffers and free of newlines and NULs |
| `LineEditor.InsertPlaces` | texteditor/blockedit.c:76-82 | an inserted character stands where it was put, those behind it one place further on, and deleting it is the reverse |
| `LineEditor.BackUndoesPut` | texteditor/blockedit.c:85-103 | Backspace right after a character restores text and cursor exactly |
| `LineEditor.BackUndoesBreak` | texteditor/blockedit.c:64-72 | and right after Enter at any column of any line |
| `LineEditor.BackUndoesTab` | texteditor/blockedit.c:73-75 | a tab with room for it is taken back by exactly four Backspaces |
| `EditorRuns.CursorFromText` | texteditor/blockedit.c:59-115 | row and column can be read off the joined text and one offset |
| `EditorRuns.SameTextSameEditor` | texteditor/blockedit.c:59-115 | so text and offset determine the editor: nothing is lost in the flat view |
| `EditorRuns.MoveIsFlat` | texteditor/blockedit.c:105-115 | moving in the lines is moving in the text |
| `EditorRuns.StepIsFlat` | texteditor/blockedit.c:59-136 | an event does to the lines what it does to one flat string with a cursor offset if and only if it meets no limit of lines or length |
| `EditorRuns.JoinLosesText` | texteditor/blockedit.c:95 | joining lines of together 1024 characters or more loses text |
| `EditorExamples.LongLinesAreCut` | texteditor/blockedit.c:95 | a session from the empty editor that gets there: 1023 characters, Enter, one more character, one step left, Backspace |
| `EditorRuns.RunIsFlat` | texteditor/blockedit.c:59-136 | every session within the limits is a session of the flat editor |
| `EditorRuns.Run` | texteditor/blockedit.c:59-136 | every session at all keeps the cursor in the text and the buffers within their bounds |
| `EditorRuns.RunStaysClean` | texteditor/blockedit.c:59-136 | and never gets a character below the space or above code 127 into the text |
| `Scheduler.NextRoundRobin` | kernel/scheduler.c:37-45 | the first ready slot in ring order from head, and head behind it; nothing and an unchanged head when nobody is ready |
| `RoundRobin.HeadAfterPick` | kernel/scheduler.c:38-44 | when anybody is ready the slot picked is ready and no ready one is nearer to head, and head goes behind it |
| `RoundRobin.NobodyToPick` | kernel/scheduler.c:45 | when nobody is, nothing is picked and head stays |
| `Scheduler.NextByPriority` | kernel/scheduler.c:46-57 | the ready process with the highest priority above -1000, and of several such the first in ring order; null exactly when no ready process has such a priority |
| `Scheduler.BestIsNearest` | kernel/scheduler.c:46-57 | no ready process has a higher priority than the one selected, and one with the same is not nearer to head |
| `Scheduler.HighestIsUnique` | kernel/scheduler.c:46-57 | which leaves exactly one choice |
| `Scheduler.Scheduler.constructor` | kernel/scheduler.c:11-15 | an empty ring |
| `Scheduler.Scheduler.Add` | kernel/scheduler.c:17-22 | null and a full ring are refused; otherwise the slot at the tail and the two counters change and nothing else, from any state; processes added one after the other occupy the first slots in order |
| `Scheduler.Scheduler.Next` | kernel/scheduler.c:34-59 | the selection for each mode; null when nothing was added, when round robin finds nobody ready, when priorities find no ready process above -1000, and in the mode that is not implemented |
| `Scheduler.PickInFullRing` | kernel/scheduler.c:38-45 | among processes that are all ready, one call returns the one at head, or the first when head is behind the last, and leaves head behind it |
| `RoundRobin.PicksInTurn` | kernel/scheduler.c:38-45 | when exactly the first n slots are ready, m consecutive calls return them in the fixed cyclic order, for every m, every head and every n |
| `RoundRobin.OnceInEveryRound` | kernel/scheduler.c:38-45 | so any n consecutive calls return each of the n exactly once |
| `Scheduler.ServedInTurn` | kernel/scheduler.c:34-45 | the same for the processes of the ring: the order is that in which they were added |
| `Scheduler.Scheduler.AddedIsRunning` | kernel/scheduler.c:17-22 | distinct ready processes with full slices, once added, start at the beginning of the first one's turn |
| `Scheduler.Scheduler.Tick` | kernel/scheduler.c:61-78 | from any state and in every mode: with nobody running a process is dispatched; otherwise the running one alone is charged, and at the end of its slice it gets a new one, is replaced by the one selected, if there is another, and is then ready, whatever it was before |
| `Scheduler.Scheduler.TickInTurn` | kernel/scheduler.c:61-78 | among processes that are all ready, the fields of all of them and the ring follow the abstract clock |
| `Scheduler.Scheduler.TicksInTurn` | kernel/scheduler.c:61-78 | so do any number of ticks in a row |
| `Scheduler.Scheduler.FairWindow` | kernel/scheduler.c:61-78 | 20n ticks, wherever they start, raise the jiffies_used of each of n processes by exactly 20 and leave the running process and the rest of its slice as they were |
| `Scheduler.Scheduler.Yield` | kernel/scheduler.c:80-83 | with nobody running nothing happens; otherwise, from any state, the end of the slice, with one tick charged |
| `Scheduler.Scheduler.YieldInTurn` | kernel/scheduler.c:80-83 | among processes that are all ready, the abstract clock with the rest of the slice given up |
| `Scheduler.SelectsIff` | kernel/scheduler.c:34-59 | a selection finds somebody if and only if, for round robin, some process in the ring is ready, for priorities, some ready one has a priority above -1000 |
| `Scheduler.YieldUnready` | kernel/scheduler.c:72-83 | a running process that is not ready, whatever the reason, is ready after its yield if and only if there was somebody to select; otherwise it keeps its state and goes on running |
| `Scheduler.TickUnready` | kernel/scheduler.c:69-77 | the same for a tick, if it is the one that ends the slice |
| `Scheduler.BlockedWakes` | kernel/scheduler.c:80-87 | a run that gets there: two processes are added to a fresh scheduler, the first is dispatched, blocks and yields, and is ready |
| `RoundRobin.BoundedWait` | kernel/scheduler.c:38-45 | however the others block and wake up, a process ready at every call is picked at the latest when every occupied slot ahead of it has had one turn |
| `RoundRobin.EveryoneWithinOneRound` | kernel/scheduler.c:38-45 | hence within as many consecutive calls as there are processes, even when others block and wake up |
| `TimeSlices.Tick` | kernel/scheduler.c:61-78 | after every tick the current slice is in 1..20 |
| `TimeSlices.YieldHandsOver` | kernel/scheduler.c:80-83 | a yield charges one tick and gives the next process a full slice, whatever was left |
| `TimeSlices.WithinSlice` | kernel/scheduler.c:66-77 | up to the end of its slice the current process gets every tick, then the next one starts with 20 |
| `TimeSlices.WholeSlices` | kernel/scheduler.c:61-78 | k slices from a fresh one give exactly the next k processes in cyclic order 20 ticks each |
| `TimeSlices.EveryWindowIsFair` | kernel/scheduler.c:61-78 | any window of 20n ticks of the clock, wherever it starts, gives everybody exactly 20 and leaves turn and slice as they were |
| `DrawLine.SetPixel` | gui/gui.c:74-77 | exactly that cell of the back buffer, and none for a point off the screen |
| `DrawLine.NextInRow` | gui/gui.c:74-77 | the back buffer holds each row from left to right |
| `DrawLine.NextRow` | gui/gui.c:74-77 | and the rows one after the other |
| `DrawLine.DrawLine` | gui/gui.c:79-90 | for all uint16 end points the loop ends after max(dx, dy) + 1 points, from (x1, y1) to (x2, y2), the rounded points of the ideal line; no other cell changes |
| `LinePoints.HalfPixel` | gui/gui.c:79-90 | every point satisfies 2 abs(dx j - dy i) <= max(dx, dy) |
| `LinePoints.RoundsUnique` | gui/gui.c:79-90 | and is the only point of its column, or row, that does so on its side of a tie |
| `LinePoints.Neighbours` | gui/gui.c:84-88 | consecutive points are among the eight neighbours of each other and never go back |
| `LinePoints.InBox` | gui/gui.c:79-90 | no point leaves the rectangle of the end points |
| `DrawLine.SameFromBothEnds` | gui/gui.c:79-90 | the line drawn from the other end has the same pixel at step k if and only if 2 k min(dx, dy) is not max(dx, dy) modulo 2 max(dx, dy), that is, the ideal line does not pass exactly between two pixels there |
| `DrawLine.DiffersFromOtherEnd` | gui/gui.c:79-90 | a line where it is not: from (0, 0) to (2, 1), at the point in the middle |
| `DrawLine.StepAlong` | gui/gui.c:86-88 | the two tests on the error term choose exactly that next point |
| `Packages.Manager.Lookup` | pkgmgr/blockpkg.c:13-18 | the first entry of that name |
| `PackageGraph.Find` | pkgmgr/blockpkg.c:13-18 | first of its name, or no entry has the name |
| `PackageClosure.EndsIffNoCircle` | pkgmgr/blockpkg.c:20-29 | the recursion ends if and only if no dependency walk through missing packages visits one twice; then a depth of the table length is enough |
| `PackageClosure.SelfDependency` | pkgmgr/blockpkg.c:20-29 | a table where it does not end: one package that depends on itself |
| `PackageClosure.InstallIsReach` | pkgmgr/blockpkg.c:20-29 | what is installed afterwards is the old set plus exactly what the package reaches through missing packages |
| `PackageClosure.InstallFromClosed` | pkgmgr/blockpkg.c:20-29 | from a dependency-closed set: the old set plus everything reachable through known dependencies, and the result is closed again |
| `Packages.Manager.InstallRec` | pkgmgr/blockpkg.c:20-29 | the recursive method in place: states, count and result follow the set function; entries only change to installed |
| `Packages.Manager.InstallPackage` | pkgmgr/blockpkg.c:20-29 | false exactly for an unknown name; on a graph without circles ahead, the closure is installed, nothing else changes, and g_installed is the number of installed entries |
| `Packages.Manager.Remove` | pkgmgr/blockpkg.c:31-37 | true exactly for a known installed package, which alone changes; the count stays exact |
| `PackageClosure.RemoveKeepsClosedIff` | pkgmgr/blockpkg.c:31-37 | after a removal nothing installed lacks a dependency if and only if nothing else installed depends on the removed package |
| `PackageClosure.RemovedStaysMissing` | pkgmgr/blockpkg.c:20-22 | installing a package that counts as installed does not bring back a dependency removed since |
| `PackageClosure.DependencyRemoved` | pkgmgr/blockpkg.c:20-37 | a table with such a package: b is installed for a, removed, and stays missing when a is installed again |
| `Packages.Manager.ListInstalled` | pkgmgr/blockpkg.c:41-47 | the first min(max, g_installed) installed entries, in table order |
| `Packages.ListingIsSorted` | pkgmgr/blockpkg.c:41-47 | the full listing names every installed entry once, ascending |
| `Bits.AndHigh` | kernel/vmm.c:35 | a mask of ones above k zeros subtracts the remainder modulo 2^k |
| `Bits.OrApart` | kernel/vmm.c:37 | joining words without a common digit adds them |
| `Bits.AndBits` | kernel/vmm.c:35 | the bitwise and has exactly the bits both have |
| `Bits.OrBits` | kernel/vmm.c:37 | and the or those that one has |
| `PageMap.PackParts` | kernel/vmm.c:37 | frame and flag bits come out of an entry as they went in |
| `PageMap.PointerSurvives` | kernel/vmm.c:33-35 | a table pointer comes out of a directory entry as it went in if and only if it is page-aligned |
| `PageMap.LastMapWins` | kernel/vmm.c:23-38 | after any run, all addresses of a page go to the frame of its last successful map, with their offset |
| `PageMap.EntryAfterMap` | kernel/vmm.c:37 | the entry of a page holds the frame and exactly the flags of its last successful map, and is present if and only if the caller asked for it |
| `PageMap.EntryAfterUnmap` | kernel/vmm.c:45 | after an unmap it is empty until the page is mapped again |
| `PageMap.LastUnmapWins` | kernel/vmm.c:40-47 | after an unmap a page goes to frame 0: 0 for its first address, the bare offset for the others where a table exists |
| `PageMap.OthersUnchanged` | kernel/vmm.c:23-55 | page-aligned addresses of pages a run does not touch translate as before |
| `PageMap.OthersUnchangedIff` | kernel/vmm.c:49-55 | the other addresses of such pages do if and only if their part of the address space has a table already or the run maps nothing in it while fewer parts without a table have been mapped in before than the heap has room for |
| `PageMap.TableIffRoom` | kernel/vmm.c:28-33 | of the parts without a table, a run gives one to exactly those it maps something in while there is room left by the others |
| `PageMap.NeighbourAppearsAt402001` | kernel/vmm.c:49-55 | an input where they do not: after vmm_init, mapping 0x401000 changes what 0x402001 translates to, from 0 to 1 |
| `PageMap.TablesOnlyGrow` | kernel/vmm.c:28-33 | tables are never given back: their number plus the room left in the heap is constant over every run |
| `PageMap.MappedAfterMap` | kernel/vmm.c:70 | vmm_is_mapped answers yes after a map if and only if the address does not go to address 0 |
| `PageMap.ZeroIsNotMapped` | kernel/vmm.c:70 | an input for the other case: address 0 after vmm_init |
| `PageMap.MappedAfterUnmap` | kernel/vmm.c:70 | and no after an unmap if and only if there is no table or the address is page-aligned |
| `PageMap.StillMappedAt1001` | kernel/vmm.c:70 | an input for the other case: 0x1001, when its page is unmapped after vmm_init |
| `PageMap.IdentityBelow4M` | kernel/vmm.c:11-13 | after the maps of vmm_init every address below 4 MiB is its own physical address and all others give 0 |
| `PageTables.InitIsIdentity` | kernel/vmm.c:11-13 | that is so when the heap had room for the one table it takes; without it every address gives 0 |
| `TableLayout.SlotsApart` | kernel/vmm.c:28-35 | different page-aligned addresses share no word: no table overlaps another or the directory |
| `TableLayout.WriteLeaf` | kernel/vmm.c:37 | storing into one table entry changes the flat map at that page only |
| `TableLayout.ViewOk` | kernel/vmm.c:28-37 | the flat map read off the tables is one the run theorems apply to: entries are words, and empty where there is no table |
| `TableLayout.AddTable` | kernel/vmm.c:28-33 | a new cleared table behind the used heap changes no page |
| `PageTables.Vmm.constructor` | kernel/vmm.c:6-9 | with an aligned heap pointer the object starts in a valid state, without a directory |
| `PageTables.Vmm.NewPage` | kernel/vmm.c:7-9 | a cleared, aligned page behind everything in use, or no change when the heap is full |
| `PageTables.Vmm.MapPage` | kernel/vmm.c:23-38 | directory and tables in memory stand for the flat map with that page mapped; no change without a directory or without memory for a table |
| `PageTables.Vmm.UnmapPage` | kernel/vmm.c:40-47 | they stand for the flat map with that page empty |
| `PageTables.Vmm.Translate` | kernel/vmm.c:49-55 | the translation of the flat map; the present bit of the entry plays no part |
| `PageTables.Vmm.Init` | kernel/vmm.c:6-21 | the directory, and the flat map after 1024 maps of pages to themselves |
| `Ipc.Pipe.Write` | kernel/ipc.c:30-36 | the pipe holds what it held followed by exactly the prefix of the data that fits; true if and only if that is all of it |
| `Ipc.Pipe.Read` | kernel/ipc.c:40-47 | the oldest bytes, as many as there are and fit, go to the buffer, and the rest stays |
| `RingBuffer.Push` | kernel/ipc.c:33-34 | with head and tail wrapping around at any multiple of the capacity, storing at the tail appends and overwrites nothing unread |
| `RingBuffer.Pop` | kernel/ipc.c:44-45 | reading at the head removes the oldest |
| `RingBuffer.WrapKeepsCell` | kernel/ipc.c:33 | the wrap does not change the cell because the capacity divides it |
| `RingBuffer.NothingLost` | kernel/ipc.c:28-48 | for every interleaving of operations on all descriptors: as long as one is not closed, what it delivered followed by what it holds is what it held followed by what it accepted |
| `RingBuffer.NeverOverfull` | kernel/ipc.c:28-48 | no slot ever holds more than its capacity |
| `RingBuffer.FirstFree` | kernel/ipc.c:15-26 | the lowest descriptor not in use, -1 when and only when there is none |
| `RingBuffer.CreateOpensEmpty` | kernel/ipc.c:15-26 | that one is open and empty afterwards |
| `RingBuffer.ReusedIsEmpty` | kernel/ipc.c:15-54 | a descriptor that is closed and handed out again shows nothing of what it held, whatever happened in between |
| `RingBuffer.BadDescriptor` | kernel/ipc.c:29-52 | an operation on a descriptor that is not open changes nothing |
| `RingBuffer.OthersUntouched` | kernel/ipc.c:15-54 | and none changes any other one |
| `Ipc.PipeTable.Create` | kernel/ipc.c:15-26 | that descriptor, now open and empty; no other one changes |
| `Ipc.PipeTable.Write` | kernel/ipc.c:28-37 | a bad descriptor changes nothing; otherwise as for one pipe, and the other pipes are untouched |
| `Ipc.PipeTable.ReadInto` | kernel/ipc.c:39-48 | likewise |
| `Ipc.PipeTable.Close` | kernel/ipc.c:50-54 | the entry is free again |
| `Ipc.Queue.Send` | kernel/ipc.c:69-79 | a message is taken in whole with its payload cut to 512 bytes, refused if and only if 64 wait; leftovers of older messages never show |
| `Ipc.Queue.Receive` | kernel/ipc.c:81-88 | the oldest message, false if and only if there is none |
| `Ipc.QueueTable.Create` | kernel/ipc.c:57-67 | the lowest free queue, now open and empty |
| `Ipc.QueueTable.Send` | kernel/ipc.c:69-79 | as for one queue, for a valid descriptor; the others are untouched |
| `Ipc.QueueTable.Receive` | kernel/ipc.c:81-88 | likewise; the caller's message is left alone on failure |
| `Ipc.QueueTable.Destroy` | kernel/ipc.c:90-94 | the entry is free again |
| `KeyDecoder.ShiftIsLastEvent` | drivers/keyboard.c:21 | after any stream the shift flag says whether the last event of either shift key was a press |
| `KeyDecoder.CapsIsParity` | drivers/keyboard.c:24 | caps lock is toggled by its presses and by nothing else |
| `KeyDecoder.CtrlIsLastEvent` | drivers/keyboard.c:22 | the ctrl flag says whether the last event of that key was a press |
| `KeyDecoder.AltIsLastEvent` | drivers/keyboard.c:23 | so does the alt flag |
| `KeyDecoder.OnlyPressesGive` | drivers/keyboard.c:25 | a stream gives at most one character for each press and none for letting a key go |
| `KeyDecoder.ReleasesDoNothing` | drivers/keyboard.c:19-31 | without the codes that say that an ordinary key has been let go, a stream gives the same characters and the same flags |
| `KeyDecoder.TypedIsDecoded` | drivers/keyboard.c:4-28 | every text of printable characters, line breaks, tabs, Backspace and Escape can be typed: pressing and letting go of the keys of a fixed layout, with shift where needed, gives exactly that text |
| `KeyDecoder.LettersFollowCase` | drivers/keyboard.c:26-27 | letter keys give capitals exactly when one of shift and caps lock is on, not both |
| `KeyDecoder.CapsIsShift` | drivers/keyboard.c:26-27 | caps lock does to every key what shift does, so the key of the 1 gives an exclamation mark |
| `KeyDecoder.ShiftMakesNoDifference` | drivers/keyboard.c:26-27 | except for Escape, Backspace, Tab, Enter, the star of the number block and the space |
| `KeyboardMachine.IrqAppends` | drivers/keyboard.c:29-30 | an interrupt appends its character unless 255 are waiting; no unread slot is overwritten |
| `KeyboardMachine.StepSound` | drivers/keyboard.c:18-38 | whatever the reader has seen, loaded or computed stays true when interrupts come before its next step |
| `KeyboardMachine.NothingLost` | drivers/keyboard.c:18-38 | for every interleaving, delivered followed by pending is what was pending at first followed by what was accepted; at most 255 are pending |
| `KeyboardMachine.AcceptedIsDecoded` | drivers/keyboard.c:18-31 | the accepted characters are the scancode stream run through the modifiers, minus exactly those that came when 255 were waiting |
| `KeyboardMachine.NothingDropped` | drivers/keyboard.c:29-30 | all of it, when the buffer is never full |
| `Keyboard.ScancodeBits` | drivers/keyboard.c:20 | the two masks give release bit and key number |
| `Keyboard.Keyboard.IrqHandler` | drivers/keyboard.c:18-31 | ring, counters and flags in place follow the machine |
| `Keyboard.Keyboard.HasInput` | drivers/keyboard.c:32 | true exactly when a character is pending |
| `Keyboard.Keyboard.GetChar` | drivers/keyboard.c:33-38 | with interrupts before any of its steps it is a run of the machine that delivers exactly the character returned |
| `Checksum.NetChecksum` | network/network.c:56-66 | both loops end, and the result is the complement of the folded sum of the words modulo 2^32 |
| `Checksum.NoOverflow` | network/network.c:58-63 | up to 65537 words the 32-bit accumulator does not overflow |
| `Checksum.SumByBytes` | network/network.c:59-62 | the words are little-endian: bytes at even places count once and those at odd places 256 times, a last single byte included |
| `Checksum.FoldStep` | network/network.c:64 | a round of folding keeps the folded value and makes the sum smaller |
| `Checksum.FoldedUnique` | network/network.c:64 | the folded value is the only number below 65536 congruent to the sum modulo 65535 and zero exactly when it is |
| `Checksum.ComplementsIff` | network/network.c:56-66 | word sum plus checksum is 0 modulo 65535 if and only if the accumulator did not overflow |
| `Checksum.Overflows` | network/network.c:56-66 | data where it did: 65538 words of 0xFFFF |
| `Checksum.ZeroIff` | network/network.c:56-66 | the checksum is 0 exactly for a positive multiple of 65535 |
| `Checksum.StoredChecksumVerifies` | network/network.c:56-66 | stored into a zeroed aligned field it makes the checksum of the whole 0 (section 2 of RFC 1071) |
| `Checksum.SingleWordErrors` | network/network.c:56-66 | a change of one word of verified data goes undetected if and only if it is between 0 and 65535 and some word remains that is not zero |
| `Checksum.Undetected` | network/network.c:56-66 | such a change: the second of the words 0xFFFF and 0 becomes 0xFFFF |
| `Checksum.OrderOfWords` | network/network.c:56-66 | the order of the words does not matter |
| `Checksum.ByteOrder` | network/network.c:56-66 | on data with all byte pairs exchanged the result has its bytes exchanged (section 2 of RFC 1071) |
| `Numerals.NumeralValue` | kernel/generic.c:204-215 | in every base the digits have the positional value n and no superfluous leading zero |
| `Numerals.OneDigit` | kernel/generic.c:209 | a number below the base is one of the digits 0 to 9 and a to z, in this order |
| `Numerals.MoreDigits` | kernel/generic.c:207-214 | one more digit is written behind the others |
| `Numerals.NumeralInjective` | kernel/generic.c:204-215 | different numbers give different digits |
| `Numerals.CanonicalIsNumeral` | kernel/generic.c:204-215 | every numeral without superfluous zeros is what its value is written as |
| `Numerals.SixtyFourBits` | kernel/generic.c:206 | from base 10 on 64 bits take at most 20 digits, so the scratch array suffices |
| `NumberText.UintToStr` | kernel/generic.c:204-215 | the loops leave that numeral and a NUL at the buffer and touch nothing else |
| `NumberText.IntToStr` | kernel/generic.c:189-202 | likewise with a sign; for the least 64-bit number the sign alone |
| `NumberText.IntTextIs` | kernel/generic.c:189-202 | the text is the numeral, behind a minus sign for a negative number; for the least one the sign alone |
| `NumberText.Itoa` | libc/libc.c:22-36 | likewise for 32 bits, with nothing at all for a negative number in a base other than 10 |
| `NumberText.ItoaTextIs` | libc/libc.c:22-36 | the text is the numeral, behind a minus sign for a negative number in base 10, and empty for one in another base |
| `NumberText.ReadInt` | libc/libc.c:15-20 | the value of the leading digits with the sign of a leading minus, modulo 2^32 |
| `NumberText.AtoiReads` | libc/libc.c:15-20 | a string of digits, with or without a minus sign in front, followed by nothing or by anything but a digit, is read as the number of the digits modulo 2^32 |
| `NumberText.WroteString` | kernel/generic.c:212-214 | reading the buffer as a string gives the text |
| `NumberText.AtoiOfItoaIff` | libc/libc.c:15-36 | atoi gives back what itoa wrote in base 10 if and only if it was not the least number |
| `NumberText.AtoiOfIntText` | kernel/generic.c:189-202 | atoi gives back what int_to_str wrote for every 32-bit number, the least included |
| `NumberText.SignedAgreeIff` | libc/libc.c:22-36 | itoa and int_to_str agree in base 10 on every 32-bit number but the least |
| `NumberText.IntTextInjective` | kernel/generic.c:189-202 | int_to_str is injective on all 64-bit numbers in every base |
| `Snprintf.Snprintf` | kernel/generic.c:217-272 | for every format and arguments that fit it, the buffer holds as much of the text as there is room for, and a NUL; the rest of the buffer is untouched and the result is the length |
| `Snprintf.FormattedParts` | kernel/generic.c:223-268 | the text of two formats one after the other is that of the first with the arguments it uses followed by that of the second with the others |
| `Snprintf.TextInFront` | kernel/generic.c:226-265 | each conversion is replaced by its argument and what is between conversions is copied |
| `Snprintf.Conversions` | kernel/generic.c:226-266 | each conversion by itself: signed, unsigned, hexadecimal and 64-bit numbers, strings, null, characters and the percent sign |
| `Snprintf.LongPrintsNothing` | kernel/generic.c:245-253 | "%ld" prints nothing and takes no argument |
| `Snprintf.WidthPrintsLetter` | kernel/generic.c:224-268 | "%4d" prints the letter d for every number: widths are not known |
| `BlockSec.Security.Decide` | blocksec.c:135-158 | the scan answers "some matching rule allows and none denies" |
| `AccessPolicy.SingleRule` | blocksec.c:142-158 | a rule grants alone exactly the requests of its source, or any, to its target, or any, for its class, that share a permission bit with it; one that denies grants nothing |
| `AccessPolicy.RuleByRule` | blocksec.c:139-158 | a list allows a request if and only if some allowing rule grants it alone and no denying rule would if it allowed |
| `AccessPolicy.OtherClasses` | blocksec.c:150 | rules of other classes change no decision, and nothing is allowed for a class no rule has |
| `AccessPolicy.OtherSources` | blocksec.c:143-145 | so it is with rules about other sources |
| `AccessPolicy.OtherTargets` | blocksec.c:147-149 | and about other targets |
| `AccessPolicy.AnySource` | blocksec.c:144 | rules about any source decide the same for every source |
| `AccessPolicy.AnyTarget` | blocksec.c:148 | rules about any target for every target |
| `Bits.CommonBit` | blocksec.c:151 | the test of the permissions is whether there is a common bit |
| `BlockSec.Security.Check` | blocksec.c:123-171 | the answer for every mode and label; every decision of the rules, and nothing else, is logged and counted |
| `BlockSec.RecordIsDecision` | blocksec.c:123-171 | a decision is logged if and only if the mode is not disabled and the process has a label, and what is logged is the decision of the rules: in permissive mode an access that goes ahead is logged as denied |
| `BlockSec.TypeOfLabelled` | blocksec.c:128-137 | the rules are asked about the type in the label of the process |
| `AccessPolicy.GrantedIff` | blocksec.c:123-137 | the answer in every mode, the undefined ones included |
| `AccessPolicy.RefusedIff` | blocksec.c:123-171 | in the three defined modes an access is refused if and only if the mode is enforcing and the process is unlabelled or not allowed |
| `AccessPolicy.UndefinedMode` | blocksec.c:22-23 | with an undefined mode an unlabelled process gets through where a labelled one without rules does not |
| `AccessPolicy.SameRulesSameDecision` | blocksec.c:139-158 | the decision depends only on which rules are in the table, not on their order or how often they are there |
| `AccessPolicy.AddedRule` | blocksec.c:139-158 | a deny put in anywhere never grants, an allow never refuses, a rule that does not match does nothing |
| `AccessPolicy.CombinedRequest` | blocksec.c:151 | a request for two permissions is granted if and only if a rule allows one of them and none denies one of them |
| `BlockSec.Security.AddRule` | blocksec.c:93-104 | appended with its fields cut to their sizes, refused exactly at 1024 rules |
| `AccessPolicy.StoredAsGiven` | blocksec.c:93-104 | a rule is stored as it was given if and only if source and target have at most 31 characters and the name at most 63 |
| `BlockSec.Security.RemoveRule` | blocksec.c:106-117 | the first rule of that name is gone and the others keep their order; false exactly for an unknown name |
| `AccessPolicy.FirstIsRemoved` | blocksec.c:106-117 | of several rules of the name only the first goes, the others staying in their order |
| `AccessPolicy.RemoveUndoesAddIff` | blocksec.c:93-117 | removing a rule just added under a fresh name restores the list if and only if the name has at most 63 characters |
| `AccessPolicy.LongNameStays` | blocksec.c:93-117 | an input where it does not: a rule with a name of 64 characters, added to no rules |
| `BlockSec.LabelTable.SetLabel` | blocksec.c:225-237 | updates or appends; false exactly for a new process in a full table |
| `BlockSec.LabelTable.GetLabel` | blocksec.c:239-245 | the label of the process, if it has one |
| `AccessPolicy.LabelAfterSet` | blocksec.c:225-245 | a process has the label it was last given, the others keep theirs, and nobody gets two entries |
| `BlockSec.Security.Log` | blocksec.c:257-283 | the ring holds the last 512 entries of the history, across any wrap of its head; each with its message |
| `BlockSec.Message` | blocksec.c:269-280 | the message is the decision, the permissions asked for, pid, both contexts and the class in words, cut to 126 characters |
| `AccessPolicy.NamedPermissions` | blocksec.c:274-277 | read, write, exec and create are named exactly when bits 0, 1, 2 and 3 were asked for |
| `AccessPolicy.NamedClasses` | blocksec.c:269-279 | the names of the eight classes in the order of their numbers |
| `BlockSec.Security.GetLog` | blocksec.c:285-291 | the last n entries, oldest first, although the index arithmetic wraps around |
| `AccessPolicy.LastAreNewest` | blocksec.c:285-291 | the last entries of a history are its end |
| `BlockSec.Security.CountersMatchHead` | blocksec.c:161-169 | allowed plus denied equals log_head modulo 2^32 when only checks write the log |
| `ProcFs.AddEntry` | fs/procfs.c:286-290 | the list with the entry in front |
| `ProcFs.CreatePidDir` | fs/procfs.c:293-322 | a directory named by the pid in decimal, with the directory fd and the files maps, cmdline, stat and status in that order, as far as there is memory; null when there is none |
| `ProcDirs.PidListing` | fs/procfs.c:293-322 | the five entries, in the order in which they are found |
| `ProcFs.ProcfsInit` | fs/procfs.c:328-363 | a root whose list is the link self and the global files, the last created first, as far as there is memory; null when there is none |
| `ProcDirs.GlobalListing` | fs/procfs.c:335-358 | the eleven entries, in the order in which they are found |
| `ProcFs.Unlink` | fs/procfs.c:391-392 | the pointers in place become those of the list without that entry |
| `ProcFs.DropProcesses` | fs/procfs.c:386-398 | the list keeps exactly the entries without a pid, in their order |
| `ProcFs.ProcfsUpdate` | fs/procfs.c:382-411 | below the root come the directories of the live processes, last of the table first, as many as there is memory for, then all entries without a pid as they were; the lists below the entries that were there before are unchanged, and six entries of memory per live process are gone |
| `ProcDirs.UpdateForgets` | fs/procfs.c:382-411 | the list after an update depends on earlier ones only through the memory they took |
| `ProcFs.FindEntry` | fs/procfs.c:414-441 | for every path below 255 characters the entry its components lead to, and the pid of the last entry on the way that has one; the first character of the path is skipped, whatever it is |
| `ProcFs.FirstCharacterIgnored` | fs/procfs.c:418-422 | the components of a path are those behind its first character |
| `ProcFs.WalkOn` | fs/procfs.c:424-438 | each component leads to the first entry of that name in the list of the one before, whatever its type, and fails when there is none |
| `ProcFs.PidOfLast` | fs/procfs.c:424-438 | with one more component the pid reported is that of the entry reached, if it has one; when there is no such entry the pid of its directory stays, although nothing is found |
| `ProcDirs.FoundIffServed` | fs/procfs.c:382-411 | looking for a pid in decimal finds the directory of that process if and only if it is alive and memory lasted until its turn |
| `ProcDirs.ServedIffLive` | fs/procfs.c:382-411 | which is being alive when there is memory for all of them |
| `ProcDirs.NamedIsFirst` | fs/procfs.c:428-434 | of entries with the same name the first is found |
| `ProcDirs.FoundAfterUpdates` | fs/procfs.c:328-411 | the same after procfs_init and any number of updates, each with its own process table, with the memory the updates before the last have left |
| `ProcDirs.ProcessVanishes` | fs/procfs.c:391-411 | because entries taken out are not reused, the directory of a process that never ends is found after n + 1 updates if and only if there was memory for more than 6n entries before the first |
| `ProcDirs.FoundAfterUpdatesIffLive` | fs/procfs.c:328-411 | with memory for all directories due in all updates, only being alive in the last table counts |
| `ProcFs.ProcessFoundIffServed` | fs/procfs.c:414-441 | find_entry on "/" and the decimal pid finds the directory in exactly these cases |
| `ProcFs.ProcessFoundAfterRun` | fs/procfs.c:328-441 | end to end: after procfs_init and any number of updates that memory lasts for, find_entry on "/" and a decimal pid finds the directory of that process if and only if the last table has it alive |
| `ProcFs.ProcessFilesFound` | fs/procfs.c:293-441 | with memory for everything, each of the five names below the directory of a live process leads to that file of it, and its pid is reported |
| `ProcDirs.GlobalsAreWords` | fs/procfs.c:336-348 | none of the entries procfs_init makes has a name that is a number |

## Left out

- KernelHeap.Heap.Realloc: with an old block, requires that the 32-bit sum of heap pointer and size does not wrap around, as otherwise the copy would go beyond the heap; what it reads behind the old block is not specified.
- RamfsData.Write: requires that heap pointer, position and length together stay below 2^32, so that the bound test of malloc does not wrap around.
- RamfsData.Grow: the same bound, for heap pointer and new size.
- RamfsData.StoreAmongAll: the same bound.
- RamfsData.Open: for an inode at hand; the lookup is that of Ramfs.RamFs.FindPath, and the flag that creates a missing file is not modelled. Sizes of handle and inode are parameters.
- RamfsData.NewFile: only the data fields of the inode; its name, kind and place in the tree are in Ramfs.
- Ramfs.FindInode: paths of 1023 characters and more are excluded, because then the copy on the stack has no NUL of its own.
- ProcFs.FindEntry: paths of 255 characters and more are excluded for the same reason.
- Ramfs.RamFs.CreateFile: requires a name below 256 and a parent below 1023 characters, as the stack arrays of the original do (CreateDir and CreateSymlink too); `used_size` is not modelled, because writes add their full size and the default files bypass it.
- NumberText.UintToStr: requires that the digits fit the 32 places of the scratch array, which they do from base 10 on.
- Packages.Manager.InstallPackage: requires that no dependency circle lies ahead; on others the recursion of the original does not end, as `PackageClosure.EndsIffNoCircle` says.
- Scheduler.Scheduler.Add: the theorems about runs start from processes added before the first dispatch; `scheduler_remove` is not modelled.
- DrawLine.DrawLine: the colour is the byte that is stored in the back buffer; how a wider colour value is cut to it is not modelled.
- Snprintf.Snprintf: requires a size of at least one, arguments of the types the format asks for, and a format that does not break off inside a conversion, even behind the place where the buffer is full.
- The byte side and the tree side of RAMFS are modelled separately: the nodes of RamfsData are the data fields of an inode, those of Ramfs its name, kind and pointers.
- `edit_open`, `edit_save`, `edit_find` and `edit_replace`: file access, and searches that do not keep the cursor in the text. The overflow of the cursor arithmetic for steps near 2^31 is not modelled.
- `ramfs_close`, `ramfs_list`, the default directory structure and the initial ramdisk.
- `scheduler_block` and `scheduler_unblock`, beyond the fact that readiness may change between any two selections.
- `vmm_switch`, `vmm_create_dir`, `vmm_destroy_dir` and everything that reaches the hardware: control registers, TLB, ports.
- Shared memory of kernel/ipc.c, and the owner and sender fields of pipes, queues and messages.
- Domains, transitions, the default policy and the checks that only choose arguments in blocksec.c.
- The text callbacks of procfs, its files and its directory listing.
- Sockets and packets of network/network.c; ext4, vfs, USB, ACPI, drawing other than lines, widgets, windows, shell and tools.
