# MushOS kernel core: a Dafny model with proofs

MushOS is a small 32-bit kernel in C with its own support library. This project models the parts in which mutable state has
an invariant that spans several functions, and proves what they keep:

- **Virtual memory and tasks.** `core/kernel/pages.c`, `core/kernel/task.c` and the assembly under them. Physical memory is one array of
  frames that holds page tables and data alike; the two bitmaps hand out frames; `clone_directory` copies private pages and
  shares kernel pages; `fork` and the timer handler are a transition system with an interrupt flag, saved contexts and the
  `0xDEADBABA` sentinel. The main results speak about every run from boot, under any interleaving of forks, stores and
  timer interrupts.
- **Heap and format.** `lib/base/heap.c`, `lib/base/string.c` and `lib/base/format.c` over one byte-addressed memory in which
  headers, payloads and strings live side by side, with the 32-bit arithmetic of the source.
- **Text screen.** `core/drivers/screen.c`, in place on the video buffer.

## How it is laid out

| file | contents |
|---|---|
| `PhysicalMemory.dfy`, `Bitmap.dfy` | frames, words, the pools as sets of used frames; the bitmap scan |
| `Cloning.dfy`, `Exhaustion.dfy` | `clone_table` and `clone_directory` as total functions, and what they preserve; what fails when a pool runs out |
| `Pager.dfy` | `pages.c` as a class that changes bitmaps and memory in place; boot-time paging |
| `AddressSpaces.dfy` | the directories of a running system: shape, ownership, cost of a fork |
| `Kernel.dfy`, `KernelSafety.dfy` | the transition system and its invariant over runs |
| `KernelTheorems.dfy`, `ForkReturns.dfy`, `PrivateMemory.dfy`, `RoundRobin.dfy` | what the invariant gives: ownership, contexts, returns of `fork`, refinement of private memories, scheduling |
| `Tasking.dfy`, `Dispatching.dfy` | `task.c` as a class over linked task structs; sequences of its calls |
| `ByteMemory.dfy`, `HeapLayout.dfy`, `HeapLinks.dfy`, `Heap.dfy`, `HeapRuns.dfy` | memory as bytes; block lists and best fit; the intrusive list; `heap.c` as a class; whole runs on it |
| `Strings.dfy`, `Numbers.dfy`, `Rendering.dfy`, `Directives.dfy`, `Format.dfy` | strings on the heap, number texts, the pure renderer and what its directives mean, `format` |
| `Screen.dfy` | the screen as a window on an endless grid |

Three decisions shape the model. A dword is represented by the bit-fields of `page_pointer`, which divide it completely, so page
tables and data pages are made of the same words. Functions that meet an exhausted pool go on with frame 0, as the code goes on
with a null pointer; the theorems say when that does not happen. In the transition system a task's stack is the stack of
activations that matter (calls of `fork`, interrupted positions); `fork` copies it where it copies the stack pages, and the
refinement of private memories is what justifies that. Loads and stores of page folders are physical; every task maps the
paging pool to itself, so the virtual addresses used there are the physical ones. Time, ports and inline assembly appear only as
the interrupt flag, the current directory and the frame copy; variadic arguments are a typed sequence.

A thrown allocation exception ends in `jmp .` in the kernel's handler (`core/kernel/heap.c:15-18`); string functions therefore return 0
for it and promise nothing more on that path, and say how much room at the end of the heap rules it out.

Where code and documentation differ, the code is followed: `heap.h` describes `occupation` as a percentage, the code returns the
number of blocks; `memory.h` names the first two parameters of `memory_fill` the other way round from `memory.c`.

## Model

| member | source | states |
|---|---|---|
| `PhysicalMemory.LowestFree` | core/kernel/pages.c:45-54 | the lowest free number of a pool, and 0 exactly when every one is used |
| `PhysicalMemory.NullIffExhausted` | core/kernel/pages.c:53-66 | allocation answers null exactly when as many bits are set as the pool has |
| `Bitmap.GetFreeBit` | core/kernel/pages.c:40-43 | the first clear bit, 0xff exactly for a full byte |
| `Bitmap.BitOfByte` | core/kernel/pages.c:42 | bit i of a byte is set exactly if the number divided by 2^i is odd |
| `Bitmap.TakeLowest` | core/kernel/pages.c:45-67 | the in-place scan refines taking the lowest member of the set of free frames; no other bit changes |
| `Bitmap.Clear` | core/kernel/pages.c:196-202 | a cleared pool has every frame free |
| `Pager.Pager.AllocateFrame` | core/kernel/pages.c:45-54 | the user pool and memory afterwards, null included |
| `Pager.Pager.AllocatePageFolder` | core/kernel/pages.c:56-67 | the paging pool afterwards, and a folder cleared to zero |
| `Pager.Pager.CopyPagePhysical` | core/kernel/utils.asm:5-38 | 1024 word moves make the destination equal to the source frame and touch nothing else, also when both are the same |
| `Pager.Pager.ContainsUserPages` | core/kernel/pages.c:126-131 | true exactly if some entry, present or not, has the user bit |
| `Pager.Pager.CloneTable` | core/kernel/pages.c:133-154 | the loop computes the cloning function, exhausted pools included |
| `Pager.Pager.CloneDirectory` | core/kernel/pages.c:156-172 | the loop computes the cloning function on the whole memory |
| `Cloning.CloneEntriesMeaning` | core/kernel/pages.c:133-154 | after n entries of a table: private pages have fresh, pairwise different frames with equal contents, kernel entries are copied, nothing else has changed, one frame per private page is taken |
| `Cloning.CloneDirectoryMeaning` | core/kernel/pages.c:156-172 | for every source in use and enough free bits the clone is faithful: same pages and flags, kernel frames shared, private frames fresh copies and pairwise different, everything in use unchanged, exact accounting of both pools |
| `Cloning.CloneFaithfulIffEnough` | core/kernel/pages.c:110-172 | cloning is faithful if and only if the free bits suffice |
| `Exhaustion.IsolationNeedsRoom` | core/kernel/pages.c:141-147 | whatever a clone looks like, fresh and different frames for all private pages imply that the pool had that many free (pigeonhole) |
| `Exhaustion.NullFolderIffShort` | core/kernel/pages.c:56-172 | while frames suffice, the clone's directory or one of its own tables is the null pointer exactly when the folders do not suffice, and stays so whatever else is cloned |
| `Pager.Pager.GetPage` | core/kernel/pages.c:94-107 | the slot of an address, null exactly above user space or for a missing table without `make`, and the table it makes |
| `Pager.SlotsDiffer` | core/kernel/pages.c:94-107 | in a kernel directory two addresses have the same slot exactly if they are in the same page |
| `Pager.Pager.InitialisePaging` | core/kernel/pages.c:193-216 | from pools in any state and for any start of user space: the pools are cleared, the kernel directory maps every page below the start to itself, user and writable exactly on the stack, and nothing else; one folder per table is used |
| `Pager.StackRange` | core/kernel/pages.c:208 | in 32-bit arithmetic the stack test holds exactly for the pages of the stack, and for none if the stack would begin below 0 |
| `AddressSpaces.BootSpaces` | core/kernel/kernel.c:32-33 | that state satisfies the ownership invariant with five private pages |
| `AddressSpaces.KernelPages` | core/kernel/pages.c:13-17 | the pages of the kernel half are stack, shared or paging pool |
| `AddressSpaces.ForkNeeds` | core/kernel/pages.c:126-172 | cloning any space of the system takes exactly five frames and one table |
| `AddressSpaces.EnoughBelowTheLimit` | core/kernel/pages.c:45-67 | the pools suffice for another fork exactly while there are at most 1789 spaces |
| `AddressSpaces.CloneKeepsSpaces` | core/kernel/task.c:48-55 | a fork from any task keeps shape, ownership and accounting of all spaces and changes no memory in use |
| `AddressSpaces.StoreKeepsSpaces` | core/kernel/pages.c:110-172 | a store through any space to any page of the kernel half that is not a page folder in use keeps all spaces and their translations |
| `AddressSpaces.PlainPageIsNoFolder` | core/kernel/pages.c:204-210 | the stack pages of every space, and all kernel pages outside the paging pool, are not page folders |
| `AddressSpaces.StoresAreSafeIff` | core/kernel/pages.c:110-172 | all stores to a page keep the spaces if and only if it is not a directory or table of one of them |
| `KernelSafety.TimerKeepsTasks` | core/kernel/task.c:82-141 | a timer interrupt at any interruptible point keeps the invariant of contexts, control and queue |
| `KernelSafety.StepKeeps` | core/kernel/task.c:40-141 | every step of the transition system keeps the whole invariant |
| `KernelSafety.EveryRunIsSafe` | core/kernel/task.c:24-141 | the invariant holds in every state of every run from boot |
| `KernelTheorems.FramesAreOwned` | core/kernel/pages.c:133-172 | in every reachable state no private frame is mapped twice, mapped pool frames are marked used, and all tasks translate kernel pages alike |
| `KernelTheorems.ForksAreAccountedFor` | core/kernel/task.c:40-63 | after k forks exactly 5+2k folders and 5k frames are used, and forking is possible exactly while k < 1789 |
| `KernelTheorems.ContextsAreComplete` | core/kernel/task.c:65-119 | with interrupts on every other task has a complete saved context, current_directory is the current task's, the k-th task has pid k, no saved eip is the sentinel, and control is never lost |
| `KernelTheorems.DispatchResumes` | core/kernel/task.c:66-140 | a dispatch enters `fork` exactly on a child's first turn and there returns 0; every other one leaves switch_task at the sentinel test, back where the interrupt struck |
| `KernelTheorems.ForkSection` | core/kernel/task.c:42-75 | the steps from `cli` to `sti` together clone, append and fill in the child as `Scheduler.Fork` does |
| `KernelTheorems.InitSection` | core/kernel/task.c:24-37 | the steps of initialise_tasking make one task over the current directory as `Scheduler.InitialiseTasking` does |
| `KernelTheorems.TimerSwitches` | core/kernel/task.c:86-140 | a timer interrupt saves eip, esp and ebp of the current task, moves to the next task and its directory and goes on with its registers, as `Scheduler.SwitchTask` does |
| `ForkReturns.EveryRunConserves` | core/kernel/task.c:65-79 | in every run, for each return that some fork owes, times returned plus tasks that still have it ahead is one |
| `ForkReturns.ForkReturnsOnce` | core/kernel/task.c:69-79 | `fork` returns the child's pid once to its parent and 0 once to the child, nothing else, and has done so unless that very process still has it ahead |
| `PrivateMemory.StoreSeen` | core/kernel/pages.c:141-148 | a store is seen by an access to the same private page of the same space or the same shared page, and by no other |
| `PrivateMemory.CloneRefines` | core/kernel/pages.c:156-172 | cloning refines copying one task's private pages in the ideal memory |
| `PrivateMemory.TasksReadTheirOwnMemory` | core/kernel/task.c:40-119 | in every run every task reads at every page what an ideal memory with separate private pages holds for it |
| `RoundRobin.TurnsComeInOrder` | core/kernel/task.c:110-113 | from position p, position q has its turn after q-p switches, or n-p+q with n the queue length at the wrap, forks interleaved at will |
| `RoundRobin.NobodyStarves` | core/kernel/task.c:106-119 | as many switches as there are tasks at the end of a stretch give everyone who was there at its beginning a turn |
| `Tasking.Scheduler.InitialiseTasking` | core/kernel/task.c:24-37 | one task with pid 0 and the current directory |
| `Tasking.Scheduler.Last` | core/kernel/task.c:60-61 | the tail walk ends, at the last node of the queue |
| `Tasking.Scheduler.Fork` | core/kernel/task.c:40-76 | the queue grows by exactly the child's struct, acyclic and without sharing, over the cloned directory; the result is its pid |
| `Tasking.Scheduler.SwitchTask` | core/kernel/task.c:82-140 | saves the context, moves to the next task or the head, and where it jumps; nothing before tasking starts or at the sentinel |
| `Dispatching.Execute` | core/kernel/task.c:40-140 | over any sequence of calls of fork and switch_task, each switch goes to the task whose turn it is, with the registers that task handed over in its own last call, or that its fork had, in the directory it has for good; each fork returns the next pid; current_directory stays the current task's |
| `Dispatching.HandedOverLast` | core/kernel/task.c:106-116 | the registers a task hands over stay its context until it gives up the processor again, whatever is called in between |
| `Dispatching.ThereAndBack` | core/kernel/task.c:106-139 | a task that gave up the processor gets it back with the eip, esp and ebp of that very call |
| `Dispatching.PerformFork` | core/kernel/task.c:48-76 | the child's directory is a clone of the forking task's, its registers are those of the call |
| `Tasking.Scheduler.GetPid` | core/kernel/task.c:144-146 | the pid of the current task |
| `HeapLayout.MeasuredIsGap` | lib/base/heap.c:137-159 | under 32-bit wrap-around every measured gap is the true one, the tail 12 short, and a wrapped tail exceeds any candidate |
| `HeapLayout.SearchIsBestFit` | lib/base/heap.c:131-162 | the search finds the smallest candidate by its own measure, the lowest on ties |
| `HeapLayout.NullIffNoRoom` | lib/base/heap.c:131-168 | on a non-empty heap ralloc answers null exactly when no leading or inner gap holds size+12 and the tail is below size+24 |
| `HeapLayout.AllocationKeepsLayoutIff` | lib/base/heap.c:125-169 | for every u_dword size an allocation keeps blocks disjoint and inside the heap exactly if size+12 does not wrap and the unchecked first block fits |
| `HeapLayout.SameBlocksSameList` | lib/base/heap.c:35-38 | the set of live blocks determines the list |
| `HeapLinks.AllocateSpace` | lib/base/heap.c:95-104 | the header words of the new block and its neighbours, every other byte as before |
| `HeapLinks.InsertLinks` | lib/base/heap.c:95-166 | these stores insert the block into the doubly linked list in memory |
| `HeapLinks.InsertKeeps` | lib/base/heap.c:95-166 | they touch no payload, the new one included, and nothing outside the heap |
| `HeapLinks.Bypass` | lib/base/heap.c:193-198 | the stores of unalloc: the neighbours, or the heap header, point past the block, every other byte as before |
| `HeapLinks.RemoveLinks` | lib/base/heap.c:193-198 | they remove the block from the list |
| `Heap.Heap.constructor` | lib/base/heap.c:116-123 | an empty valid heap; memory outside it is untouched |
| `Heap.Heap.IsInHeap` | lib/base/heap.c:49-51 | strictly between the heap's bounds |
| `Heap.Heap.GetHeader` | lib/base/heap.c:60-63 | the header address, or the heap exception outside the heap |
| `Heap.Heap.Size` | lib/base/heap.c:65-67 | the size of a live block |
| `Heap.Heap.Occupation` | lib/base/heap.c:69-83 | the walk ends and counts the live blocks |
| `Heap.Heap.FindGap` | lib/base/heap.c:131-162 | the pointer loop computes the search over gaps |
| `Heap.Heap.Ralloc` | lib/base/heap.c:125-169 | list and memory afterwards: the block goes into the gap the search chooses, null leaves all as it was, no payload byte changes, the new one's included |
| `Heap.PlacementRoom` | lib/base/heap.c:125-169 | with size+24 bytes behind the last block an allocation succeeds, and it takes at most size+12 of them |
| `Heap.Heap.Zalloc` | lib/base/heap.c:171-175 | the same, with the new payload zero |
| `Heap.Heap.Unalloc` | lib/base/heap.c:193-198 | exactly that block leaves the list, no payload byte changes |
| `Heap.Heap.Challoc` | lib/base/heap.c:177-191 | a block that shrinks, keeps its size or passes the guard stays where it is and only its size changes; any other moves to where ralloc places a block of the new size, and the old one leaves the list; leading bytes are the same, all other blocks live and untouched; null exactly if it has to move and nothing fits |
| `Heap.GrowthBranch` | lib/base/heap.c:182 | the guard compares with the distance to the next block, and for the last block with the distance to 2^32 |
| `Heap.GrowthGuard` | lib/base/heap.c:182 | growing in place keeps the layout exactly if the gap behind the block holds the difference |
| `Heap.GrowthGuardIsTooWeak` | lib/base/heap.c:182 | the guard lets a block overrun its neighbour's header, and the last block the heap |
| `HeapRuns.RunsAreNeutral` | lib/base/heap.c:125-198 | any legal sequence of ralloc, zalloc, unalloc and writes to own blocks keeps the layout and all earlier blocks, and one that frees all it allocated restores the list |
| `HeapRuns.Execute` | lib/base/heap.c:125-198 | such a sequence on the heap in memory: the caller reads back what it last wrote to its blocks, or the zeros of zalloc, and no byte of an earlier block or outside the heap has changed |
| `Strings.Len` | lib/base/string.c:6-10 | the length of a NUL-terminated text |
| `Strings.SubstringMid` | lib/base/string.c:50-55 | one new block with the slice, earlier blocks untouched, and the room that guarantees success |
| `Strings.Concatenate` | lib/base/string.c:72-79 | one new block with both texts, earlier blocks untouched, and the room that guarantees success |
| `Numbers.NumberRoundTrip` | lib/base/format.c:99-133 | for every dword and base a reader that knows only "-", "0x" and "0b" finds the base and the number |
| `Numbers.NoLeadingZero` | lib/base/format.c:42-60 | the first digit is 0 only for 0 |
| `Numbers.DigitCount` | lib/base/format.c:43-48 | a number between two powers of the base has that many digits |
| `Numbers.FloatReadsBackIff` | lib/base/format.c:67-87 | what `%f` prints reads back as the number cut off after four decimals exactly if its first decimal is not 0, since the decimals are printed without leading zeros |
| `Numbers.FloatMisread` | lib/base/format.c:73-75 | 3.0005 is printed as 3.5 |
| `Format.CountDigits` | lib/base/format.c:43-48 | for every u_dword the multiplier loop counts the digits and stays below 2^36 |
| `Format.FillDigits` | lib/base/format.c:50-59 | the digit loop fills every cell exactly, from the last to the first, and none for 0 |
| `Format.ConstToString` | lib/base/format.c:25-31 | a fresh copy of a text |
| `Format.CharToString` | lib/base/format.c:18-23 | a fresh one-character text, empty for NUL, in a block of two bytes |
| `Format.BooleanToString` | lib/base/format.c:62-65 | a fresh "true" or "false" |
| `Format.IntToString` | lib/base/format.c:42-60 | a fresh text of the digits of a positive number; for 0 the one byte that memory held there before, since no digit is written |
| `Format.PointerToString` | lib/base/format.c:89-97 | ".null" or a dot and the hexadecimal digits; the temporary is freed |
| `Format.NumberToString` | lib/base/format.c:99-133 | sign, prefix and digits for every dword; the temporaries are freed |
| `Format.FloatToString` | lib/base/format.c:67-87 | integer part, dot and four decimals as a number; the temporaries are freed |
| `Format.FreeConcat` | lib/base/format.c:136-141 | both arguments are gone, one block with both texts has come |
| `Format.Format` | lib/base/format.c:143-186 | the result is the rendering of template and arguments, in one new block of its length plus one; all earlier blocks are live and untouched and nothing else is live; it fails only for lack of room, with a bound that rules this out |
| `Format.FormatAndUnalloc` | tests/lib/format.c:14-17 | format and unalloc of its result restore the list of blocks and all payloads |
| `Directives.KnownLetters` | lib/base/format.c:152-177 | the directive letters are l, p, d, h, b, f, c and s |
| `Directives.LetterTakes` | lib/base/format.c:153-176 | which letter takes which argument |
| `Directives.NumberDirectives` | lib/base/format.c:159-167 | `%d`, `%h` and `%b` of every dword are read back as that number in base 10, 16 and 2 |
| `Directives.BooleanDirective` | lib/base/format.c:153-155 | `%l` gives "true" or "false" |
| `Directives.PointerDirective` | lib/base/format.c:156-158 | `%p` gives ".null" or a dot and the hexadecimal digits of the address, without leading zeros |
| `Directives.RealDirective` | lib/base/format.c:168-170 | `%f` gives the integer part, a dot, and the four decimals as a number |
| `Directives.TextDirectives` | lib/base/format.c:171-176 | `%c` gives the character, nothing for NUL, and `%s` the text |
| `Directives.LiteralKept` | lib/base/format.c:147-185 | text without a percent sign is kept in front of what the rest becomes |
| `Directives.PercentRendered` | lib/base/format.c:147-181 | a directive is replaced by the text of the next argument, any other percent sign is kept |
| `Rendering.ScanDirective` | lib/base/format.c:147-176 | a known directive consumes the next argument and is replaced by its text |
| `Rendering.ScanVerbatim` | lib/base/format.c:177-180 | an unknown directive or a trailing percent sign is copied verbatim |
| `Screen.Screen.GetCursorOffset` | core/drivers/screen.c:30-36 | the offset the two registers hold |
| `Screen.Screen.SetCursorOffset` | core/drivers/screen.c:38-44 | the registers hold the offset modulo 2^16 |
| `Screen.Screen.Scroll` | core/drivers/screen.c:57-72 | beyond the last cell all rows move up by one with their colours and the last is blank in light gray; memory behind the screen is untouched |
| `Screen.Screen.PrintCharColor` | core/drivers/screen.c:76-103 | cell by cell: the cell at the cursor, the one before it for a backspace, four for a tab, none for a line feed, get the character or a blank in the two colours, all others stay; the cursor moves, and beyond the last cell all goes up by a row; the screen shows the window on the endless grid after the same character |
| `Screen.WriteStrikes` | core/drivers/screen.c:81-98 | which cells of the grid a character changes, and to what |
| `Screen.AttributesColour` | core/drivers/screen.c:77 | the low half of the attribute byte is the text colour, the high half the background |
| `Screen.GrayOnBlack` | core/drivers/screen.c:67-68 | a blank printed in 7 on 0 is the cell that scrolling and clearing leave |
| `Screen.Screen.PrintStringColor` | core/drivers/screen.c:112-115 | the same for whole strings, by length or to the NUL |
| `Screen.Screen.ClearScreen` | core/drivers/screen.c:119-123 | an empty grid, blank in light gray, seen from its top |
| `Screen.NothingIsLost` | core/drivers/screen.c:57-103 | the characters and the cursor are those of a grid on which nothing ever scrolls |
| `Screen.CursorStaysIff` | core/drivers/screen.c:76-103 | in the code's arithmetic the cursor stays on the screen for every position and character except a backspace in the first cell |
| `Screen.CursorIsTheGrids` | core/drivers/screen.c:81-102 | otherwise it is the cursor of the grid |

## Left out

- `free_frame` and `free_page_table`: nothing calls them, and their bit index is a byte offset, so they do not undo an allocation.
- `Ralloc`: is stated for sizes whose size+12 does not wrap and for a first block that fits, which the code does not check; `AllocationKeepsLayoutIff` proves that these are exactly the calls after which the heap is still one.
- `Zalloc`: has the same condition as `Ralloc`.
- `Challoc`: growing in place is stated for blocks with room behind them, which the code's guard does not ensure; `GrowthGuard` proves that these are exactly the calls that keep the heap.
- `SubstringMid`: on an empty heap the block has to fit, as for `Ralloc`.
- `Concatenate`: on an empty heap the block has to fit, as for `Ralloc`.
- `Format`: templates with too few or mistyped arguments read past the stack frame and are not covered; `%f` is covered for the numbers of `FloatToString`.
- `FloatToString`: numbers are exact, rounding of doubles is not modelled; below 1, or with four zero decimals, a digit cell stays unwritten as `IntToString` says for 0, and negative numbers and those from 2^32 on have no defined conversion to u_dword.
- `StoreKeepsSpaces`: kernel code that would write to page folders in use by hand is not modelled; `StoresAreSafeIff` shows that nothing could be promised for it.
- The bitmaps and task structs live in objects of their own, not in the modelled heap; the kernel heap is large enough for all 1790 task structs.
- `equals`, `first_pos`, `last_pos`, `move_string_by`, `memory_compare`: loops without shared state.
- `get_cursor`, `get_char` and `screen_callback`: a stub, swapped coordinates and a dispatch over stack reads.
- Exceptions other than a failed allocation, `page_fault` and `PANIC`.
- Interrupt tables, timer programming, keyboard, modules, file system stubs, boot loader and disk code.
- Flag bits that `create_page_entry` leaves unassigned are arbitrary and not specified.
