# Pintos user programs, a sentinel list and `my_strdup`, in Dafny

This project models the user-program layer of a Pintos kernel (`src/userprog/process.c` and
`src/userprog/syscall.c`), and proves properties of the model. It also models two small
stand-alone C exercises from the same repository: a sentinel-headed singly linked list
(`src/standalone/slist`) and `my_strdup` (`src/standalone/gdb/debug3.c`).

The kernel part covers the following:

* **Loading an ELF32 executable.** `load` checks the executable header and walks the
  program headers. It skips, refuses or loads each one (`validate_segment`,
  `load_segment`, `install_page`), then maps the stack page (`setup_stack`). The user pool
  is a list of free kernel pages. The page directory maps user pages to frames
  (`Paging.AddressSpace`).
* **Building the initial user stack.** `start_process` splits the command line into words
  and lays out the i386 call frame of `main (argc, argv)` in the zeroed stack page
  (`ArgStack`). The page is an `array<byte>`, filled by loops that lower the stack pointer.
* **Parent/child bookkeeping.** `process_execute` creates a reference-counted relation with
  two references. `process_wait` searches and removes a child. `process_exit`,
  `cleanup_children` and `close_files` release relations and files (`Lifecycle`). The
  semaphore is a sticky `exited` flag; the locks are dropped.
* **The system-call boundary** (`Validate`, `Syscall`):
  * the pointer, buffer and string validators that walk the page directory;
  * `is_valid_fd`;
  * the handler's choice between killing the process, faulting on an argument read and
    invoking a call;
  * the open-file table handlers: `open`, `close`, `write`, `read`, `read_from_stdin`,
    `filesize`, `seek`, `tell`, `exec`, `wait` and `exit`.

Files:

| file | module | contents |
|---|---|---|
| `memory.dfy` | `Memory` | PGSIZE, PHYS_BASE, 32-bit wrap-around, the page map, little-endian words |
| `elf.dfy` | `Elf` | header and program-header decoding, classification, `validate_segment`, segment layout |
| `address_space.dfy` | `Paging` | the user pool, the page directory, `install_page`, `load_segment`, `setup_stack` |
| `loader.dfy` | `Loader` | `load` |
| `arg_stack.dfy` | `ArgStack` | tokenising and the argument frame of `start_process` |
| `lifecycle.dfy` | `Lifecycle` | relations, open files, processes: execute, wait, exit |
| `validate.dfy` | `Validate` | `is_valid_ptr`, `is_valid_buffer`, `is_valid_string`, `is_valid_fd` |
| `syscall.dfy` | `Syscall` | the handler's decision and the system-call handlers |
| `slist.dfy` | `SList` | the sentinel list and the driver in `main.c` |
| `strdup.dfy` | `Strdup` | `my_strdup` |

Two checks come in an as-written form and a corrected form (see "## Findings"):
the buffer walk and the string check. The handlers use the corrected checks.
`process_exit` also comes in both forms: `ProcessExitAsWritten` models the code, and
`ProcessExit`, which `exit` uses, models the intended behaviour. So does the loop of
`cleanup_children`: `ReleaseAllAsWritten` stops with a fault at the step after it frees a
relation, and `ReleaseAll`, which the exits use, goes on to the next relation.

The design frees each relation exactly once, by whichever side's decrement takes its count
to 0. An exiting parent must therefore give up its reference to every child relation,
including the one a wait has taken out of its list. The code does neither in every case:
an exiting process releases its children only when its own relation count reaches 0
(process.c:284-288), and `process_wait` removes the relation it waited on without giving
up its reference (process.c:236-243). Both are recorded as findings. `ProcessExitAsWritten`,
`ExitAsWritten` and `Wait` model the code; `ProcessExit`, `Exit` and `WaitReleasing` model
the intended behaviour.

## Model

| member | source | states |
|---|---|---|
| `Memory.ToInt32` | src/userprog/syscall.c:74 | an unsigned stack word read as a C `int` lies in the signed 32-bit range and wraps back to the same word |
| `Memory.ScanNul` | src/userprog/syscall.c:211 | a NUL that `strlen` finds is the first one at or after the start, and every byte up to it is mapped |
| `Memory.DecodeEncode` | src/userprog/process.c:173-185 | a value `memcpy`'d as `width` little-endian bytes reads back as the same value |
| `Elf.ParseEhdr` | src/userprog/process.c:376-391 | `e_ident` is the first 16 bytes of the file and `e_phnum` is a 16-bit field |
| `Elf.ClassifyCases` | src/userprog/process.c:479-523 | PT_DYNAMIC, PT_INTERP and PT_SHLIB abort; exactly PT_LOAD is loaded; PT_NULL, PT_NOTE, PT_PHDR, PT_STACK and unknown types are skipped |
| `Elf.ValidateSegmentMeaning` | src/userprog/process.c:547-587 | `validate_segment` holds iff: the offsets share the page offset; the segment starts inside the file; `filesz <= memsz`; `memsz > 0`; it lies in user space without wrapping; it starts at or above page 1 |
| `Elf.SegmentLayoutSound` | src/userprog/process.c:492-510 | for a valid segment: `read_bytes + zero_bytes` is `ROUND_UP(page_offset + memsz, PGSIZE)`, a multiple of PGSIZE; nothing is read when `filesz == 0`; `zero_bytes` does not underflow; the pages lie in user space from page 1 |
| `Paging.PageRead` | src/userprog/process.c:616-617 | one page reads `min(read_bytes, PGSIZE)` bytes; the rest of the total stays a multiple of PGSIZE and shrinks by exactly PGSIZE |
| `Paging.FillPage` | src/userprog/process.c:620-637 | a page is filled iff the pool has a page, the file has the bytes, and the user page is unmapped |
| `Paging.LoadPagesOnlyAdds` | src/userprog/process.c:603-647 | `load_segment` keeps the page directory and pool well formed, keeps every old mapping, and adds pages only inside the segment |
| `Paging.LoadPagesKeepsOk` | src/userprog/process.c:603-647 | `load_segment` keeps the page directory and the pool well formed |
| `Paging.LoadPagesNewInRange` | src/userprog/process.c:603-647 | every page `load_segment` maps lies in `[upage, upage + read_bytes + zero_bytes)` |
| `Paging.LoadPagesUsesPool` | src/userprog/process.c:603-647 | a successful `load_segment` takes exactly `(read+zero)/PGSIZE` pages from the front of the pool, and the file holds the bytes read |
| `Paging.LoadPagesKeys` | src/userprog/process.c:603-647 | a successful `load_segment` maps exactly the `(read+zero)/PGSIZE` consecutive pages from `upage`, all of them previously unmapped |
| `Paging.LoadPagesFrames` | src/userprog/process.c:603-647 | page `j` of a loaded segment holds pool page `j`, the segment's writability, and its share of the file followed by zeros |
| `Paging.LoadPagesFrameAt` | src/userprog/process.c:603-647 | the same for one page `j`, by induction on `j` |
| `Paging.LoadPagesOnlyAddsAt` | src/userprog/process.c:603-647 | a page mapped before `load_segment` keeps its frame, whether the load succeeds or fails |
| `Paging.AddressSpace.constructor` | src/userprog/process.c:446 | `pagedir_create` gives an empty page directory |
| `Paging.AddressSpace.InstallPage` | src/userprog/process.c:676-685 | `install_page` succeeds iff `upage` was unmapped, and then maps exactly that page; on failure nothing changes |
| `Paging.AddressSpace.FillNextPage` | src/userprog/process.c:619-641 | one iteration of the fill loop: get a page, read, zero the rest, install; on failure the pool and the directory are as before |
| `Paging.AddressSpace.LoadSegment` | src/userprog/process.c:603-647 | the fill loop computes exactly `LoadPages` of the old directory and pool |
| `Paging.AddressSpace.SetupStack` | src/userprog/process.c:651-665 | `setup_stack` computes `StackPage`; `esp` becomes PHYS_BASE on success and is unchanged otherwise |
| `Paging.StackPageMeaning` | src/userprog/process.c:651-665 | the stack page is mapped iff a pool page is free and `PHYS_BASE - PGSIZE` is unmapped; it is then writable, zeroed, and the only new mapping |
| `Loader.LoadProgramHeader` | src/userprog/process.c:469-523 | one pass of the header loop computes `HeaderStep`: stop or go on, with the new directory and pool |
| `Loader.HeaderStepAccepts` | src/userprog/process.c:472-521 | a pass that goes on has read a whole header inside the file, and that header is skippable or a valid loadable segment |
| `Loader.HeaderStepIgnored` | src/userprog/process.c:479-486 | a skipped header changes nothing |
| `Loader.HeaderStepOnlyAdds` | src/userprog/process.c:469-523 | a pass keeps the directory and pool well formed and keeps old mappings |
| `Loader.Load` | src/userprog/process.c:436-539 | `load` fails without a page directory; otherwise it computes `LoadSpec`; on success the entry point is `e_entry` and `esp` is PHYS_BASE |
| `Loader.LoadNeedsHeader` | src/userprog/process.c:459-465 | `load` succeeds only if the file exists, holds a full header, and that header passes the executable-header test |
| `Loader.WalkAcceptsAll` | src/userprog/process.c:469-524 | a header walk that succeeds has read every header inside the file, and each was skippable or a valid loadable segment |
| `Loader.IgnoredHeadersNoEffect` | src/userprog/process.c:479-486 | headers that are all skipped leave the directory and pool as they were |
| `Loader.WalkOnlyAdds` | src/userprog/process.c:469-524 | the header walk keeps the directory and pool well formed and keeps every old mapping |
| `Loader.LoadLeavesStack` | src/userprog/process.c:526-528 | after a successful load the stack page is mapped, writable and zeroed |
| `ArgStack.Tokens` | src/userprog/process.c:130-137 | every word `strtok_r` returns is non-empty and free of spaces |
| `ArgStack.TokensUnwords` | src/userprog/process.c:130-137 | splitting words joined by single spaces gives the words back |
| `ArgStack.TokensAvoid` | src/userprog/process.c:130-137 | a byte absent from the command line is absent from every word |
| `ArgStack.PointersAt` | src/userprog/process.c:153-158 | `argv_elements_pointers[k]` is the address word `k` was copied to |
| `ArgStack.AlignTest` | src/userprog/process.c:161-163 | C's truncating `(int) esp % 4 != 0` holds exactly when the address is not a multiple of 4 |
| `ArgStack.FrameSize` | src/userprog/process.c:150-188 | the frame is 16 bytes, plus 4 per word, plus the padding, plus the words with their NULs; `argv` lies 12 bytes above the final `esp` |
| `ArgStack.FrameWords` | src/userprog/process.c:165-188 | reading up from `esp`: the return slot holds 0, then `argc`, then the address of `argv[0]`; `argv[argc]` holds 0; `esp` is a multiple of 4 |
| `ArgStack.FrameEntry` | src/userprog/process.c:168-174 | `argv[k]` holds the address of word `k` |
| `ArgStack.FrameString` | src/userprog/process.c:152-158 | word `k` lies NUL-terminated at that address |
| `ArgStack.FrameRoundTrip` | src/userprog/process.c:148-188 | a `main` that reads `argc`, `argv` and its strings from the final stack finds exactly the command line's words |
| `ArgStack.PushStrings` | src/userprog/process.c:152-158 | the words are copied last to first, byte-exact with their NULs, at the top of the page; `esp` drops by their total size |
| `ArgStack.PushPointers` | src/userprog/process.c:165-174 | the pointers are stored below what is already there, in order, as little-endian words |
| `ArgStack.WordAlign` | src/userprog/process.c:160-163 | the alignment loop stops at the word boundary at or below the stack pointer, C's truncating `%` agreeing with the mathematical one on these addresses |
| `ArgStack.PushHead` | src/userprog/process.c:176-188 | `argv`, then `argc`, as little-endian words, then a zero return address go below what is already there; `esp` drops by 12 |
| `ArgStack.PushArguments` | src/userprog/process.c:148-188 | the whole frame: `esp` and the page are exactly `FrameEsp` and `StackImage` of the words |
| `ArgStack.ProgramImage` | src/userprog/process.c:127-145 | the image `load` gets is the file named by the first word, and none when the command line has no word or no file has that name |
| `ArgStack.StartProcess` | src/userprog/process.c:103-217 | `start_process` loads the executable named by the first word (nothing for an empty command line); it succeeds iff the load does; then `eip` is the header's entry point, and the stack page holds the frame, from which `main` reads back the words |
| `Lifecycle.Relation.constructor` | src/userprog/process.c:78-83 | a relation starts with `alive_count == 2` and `child_exit_status == -1` |
| `Lifecycle.Relation.Release` | src/userprog/process.c:331-342 | the count drops by exactly 1, and the relation is freed exactly when it was 1 |
| `Lifecycle.Relation.ChildLeaves` | src/userprog/process.c:275-281 | the child's exit drops the count by exactly 1 and raises the semaphore |
| `Lifecycle.Relation.Free` | src/userprog/process.c:287 | `free` marks the relation freed |
| `Lifecycle.File.Read` | src/userprog/syscall.c:424 | `file_read` returns the bytes from the position, as many as fit, and advances the position past them |
| `Lifecycle.File.Write` | src/userprog/syscall.c:382 | `file_write` overwrites as many bytes as fit from the position and advances it |
| `Lifecycle.FindChild` | src/userprog/process.c:236-243 | the search stops at the first relation with the child's id, and reports none when no relation has it |
| `Lifecycle.FindChildExact` | src/userprog/process.c:236-243 | the first match a scan finds is the one `FindChild` names |
| `Lifecycle.RemoveAt` | src/userprog/process.c:240 | `list_remove` drops exactly one element and keeps the order of the rest |
| `Lifecycle.SecondWaitFails` | src/userprog/process.c:220-248 | once a child's relation is removed, no relation with its id is left |
| `Lifecycle.SurvivorsExactly` | src/userprog/process.c:327-343 | `cleanup_children` keeps exactly the relations whose count was not 1 |
| `Lifecycle.ReleaseAll` | src/userprog/process.c:327-343 | the intended loop: every listed relation drops one reference; those reaching 0 are freed and removed, the rest stay in order |
| `Lifecycle.FirstFreed` | src/userprog/process.c:332-342 | the first relation whose count reaches 0 in the walk: every earlier count was not 1, and its count was 1 |
| `Lifecycle.ReleaseAllAsWritten` | src/userprog/process.c:327-343 | the loop as written faults iff some count reaches 0: the relations up to and including the first freed one lose one reference, that one is freed, and the later ones are untouched |
| `Lifecycle.Process.Execute` | src/userprog/process.c:45-99 | without a page or a thread the result is TID_ERROR and nothing changes; otherwise a new relation (`child_id` = tid, status -1) is appended to the children, holding two references, or one if the load failed |
| `Lifecycle.Process.Wait` | src/userprog/process.c:229-254 | -1 and nothing changes if no child has the id; otherwise the first such relation is removed and its status returned, or the caller blocks |
| `Lifecycle.Process.WaitReleasing` | src/userprog/process.c:229-254 | as `Wait`, and when the child had exited the parent's reference to the removed relation is given up, freeing it when that was the last |
| `Lifecycle.Process.CloseFiles` | src/userprog/process.c:311-319 | every file in the table is closed and keeps its position |
| `Lifecycle.Process.CleanupChildren` | src/userprog/process.c:321-344 | every child relation drops one reference; the children list keeps exactly those not freed |
| `Lifecycle.Process.ExitAsRoot` | src/userprog/process.c:262-267 | a process without a parent releases its children and closes its files |
| `Lifecycle.Process.ProcessExitAsWritten` | src/userprog/process.c:257-289 | the parent relation loses one reference; the children are released only when there is no parent or its count reached 0; otherwise they are untouched; the files are closed |
| `Lifecycle.Process.ExitAsChildAsWritten` | src/userprog/process.c:268-289 | the same for a process with a parent |
| `Lifecycle.Process.LeaveAndCloseFiles` | src/userprog/process.c:274-282 | the parent relation loses exactly one reference and is marked exited; the files are closed; the children are untouched |
| `Lifecycle.Process.CleanupOrphaned` | src/userprog/process.c:284-288 | when the last reference goes, the children are released and the relation is freed |
| `Lifecycle.Process.ProcessExit` | src/userprog/process.c:257-289 | corrected `process_exit`: the children are always released, the files closed, and the parent relation loses exactly one reference |
| `Lifecycle.Process.LeaveParent` | src/userprog/process.c:274-288 | the parent relation loses one reference, is marked exited, and is freed iff the count reaches 0 |
| `Lifecycle.Process.Exit` | src/userprog/syscall.c:508-515 | `exit` records the status in the parent relation iff there is one, then leaves as the corrected `process_exit` does |
| `Lifecycle.Process.ExitAsWritten` | src/userprog/syscall.c:508-515 | `exit` records the status in the parent relation iff there is one, then leaves as `process_exit` as written does: the children are released only when there is no parent or its count reached 0 |
| `Lifecycle.AsWrittenExitLeaks` | src/userprog/process.c:284-288 | a grandchild whose parent exits before it keeps a relation with one reference that is never freed |
| `Lifecycle.ExitReleasesChildren` | src/userprog/process.c:284-288 | with the corrected exit, the same relation reaches 0 and is freed |
| `Lifecycle.AsWrittenWaitLeaks` | src/userprog/process.c:236-243 | a parent that waits on an exited child gets its status, but after the parent exits the relation still has one reference and is never freed |
| `Lifecycle.WaitReleasesRelation` | src/userprog/process.c:236-243 | with the corrected wait, the same relation reaches 0 and is freed |
| `Lifecycle.AsWrittenCleanupFaults` | src/userprog/process.c:327-343 | a first process whose children are [C1, C2], with C1 exited, frees C1's relation and faults before it reaches C2's, which keeps both references |
| `Lifecycle.CleanupReachesAll` | src/userprog/process.c:327-343 | with the intended loop, C1's relation is freed and C2's loses the parent's reference |
| `Validate.ProbePages` | src/userprog/syscall.c:187-198 | the page-walk loop computes `Walk` |
| `Validate.WalkStep` | src/userprog/syscall.c:189-197 | one step of the walk moves the bound strictly up to the page boundary above the kernel address found, or fails on an unmapped page |
| `Validate.WalkProbesOnePage` | src/userprog/syscall.c:187-198 | from a user page boundary the walk makes one probe: it succeeds iff the end is already covered, or that page is mapped and the end lies within its kernel page |
| `Validate.PtrExact` | src/userprog/syscall.c:172-202 | `is_valid_ptr` holds iff the four bytes at the pointer are mapped user memory |
| `Validate.PtrExactInPage` | src/userprog/syscall.c:172-202 | a pointer whose four bytes lie in its own mapped page passes |
| `Validate.PtrExactAcross` | src/userprog/syscall.c:172-202 | a pointer that straddles a page passes iff the next page is mapped |
| `Validate.IsValidPtr` | src/userprog/syscall.c:172-202 | the loop computes the as-written predicate, which equals `PtrOk` |
| `Validate.IsValidBuffer` | src/userprog/syscall.c:235-262 | the loop computes the as-written buffer walk |
| `Validate.EmptyBufferIsPtr` | src/userprog/syscall.c:235-262 | a zero-length buffer reduces to `is_valid_ptr` |
| `Validate.BufferOkAccepted` | src/userprog/syscall.c:235-262 | the as-written walk accepts every wholly mapped buffer |
| `Validate.SmallBufferExact` | src/userprog/syscall.c:235-262 | for a buffer of at most one page the as-written walk is exact |
| `Validate.AsWrittenBufferAcceptsUnmapped` | src/userprog/syscall.c:247-257 | the as-written walk accepts a two-page buffer whose second page is unmapped |
| `Validate.CheckBuffer` | src/userprog/syscall.c:235-262 | corrected buffer check: accepts iff the start is a valid pointer and every byte is mapped |
| `Validate.CheckPages` | src/userprog/syscall.c:243-258 | the corrected page loop accepts iff every byte of the range is mapped |
| `Validate.IsValidString` | src/userprog/syscall.c:205-233 | the check computes the as-written three-way verdict |
| `Validate.StringVerdict` | src/userprog/syscall.c:205-233 | as written, it accepts iff the string is valid; it rejects iff the start is not a valid pointer; it faults iff `strlen` runs into an unmapped byte |
| `Validate.AsWrittenStringFaults` | src/userprog/syscall.c:207-211 | a valid start pointer whose bytes run unterminated to the end of the mapped memory makes `strlen` fault |
| `Validate.CheckString` | src/userprog/syscall.c:205-233 | corrected string check: accepts iff the start is a valid pointer, a NUL follows, and every byte up to it is mapped |
| `Validate.FdSlots` | src/userprog/syscall.c:264-267 | `is_valid_fd` holds iff `fd - 2` indexes the 128-slot table, i.e. `2 <= fd <= 129` |
| `Syscall.RequestRoundTrip` | src/userprog/syscall.c:43-161 | the request built from a call's argument words gives back the call and the same words |
| `Syscall.StackCheckedExact` | src/userprog/syscall.c:67-150 | the stack checks the handler makes for CLOSE, WRITE, EXIT and EXEC accept iff the bytes they cover are mapped |
| `Syscall.DecideKills` | src/userprog/syscall.c:36-166 | the process is killed iff the number slot is not mapped, the number is unknown, or the call's own stack check fails |
| `Syscall.DecideFaults` | src/userprog/syscall.c:93-124 | an argument read faults iff the checks pass but an argument word the call reads is unmapped |
| `Syscall.DecideInvokes` | src/userprog/syscall.c:43-161 | an invoked call is the one its number names, with argument `i` taken from `esp + 4 + 4i` |
| `Syscall.CheckedCallsNeverFault` | src/userprog/syscall.c:67-150 | CLOSE, WRITE, EXIT and EXEC never fault on reading their arguments |
| `Syscall.FreeSlot` | src/userprog/syscall.c:312-322 | the slot chosen is the lowest empty one, or none when the table is full |
| `Syscall.FreeSlotExact` | src/userprog/syscall.c:312-322 | the first empty slot a scan finds is the one `FreeSlot` names |
| `Syscall.Open` | src/userprog/syscall.c:296-329 | kills on an invalid name; a missing file gives -1 with the table unchanged; a found file goes in the lowest empty slot `i`, returning `i + 2`, with no other slot changed; a full table gives -1 and the opened file is dropped |
| `Syscall.Close` | src/userprog/syscall.c:332-353 | kills iff the fd is outside 2..129; otherwise slot `fd - 2` becomes empty, no other slot changes, and its file is closed |
| `Syscall.Write` | src/userprog/syscall.c:356-389 | kills on an invalid buffer or, except for fd 1, an invalid fd; fd 1 puts the buffer on the console and returns `size`; an empty slot gives -1; otherwise the file is overwritten and the count returned |
| `Syscall.EchoStop` | src/userprog/syscall.c:438 | the first byte whose echo `write` refuses: every earlier byte's address is a valid pointer and this one's is not, or no byte is refused |
| `Syscall.EchoStopsNearEnd` | src/userprog/syscall.c:438 | with one page mapped, a 4-byte keyboard read 4 bytes before its end is stopped at the second byte's echo |
| `Syscall.ReadFromStdin` | src/userprog/syscall.c:429-442 | stores keys with every carriage return turned into a newline, so no `'\r'` is stored; echoes each stored byte until the echo's own buffer check fails, which kills the process after that byte was stored; otherwise stores and echoes all `size` keys and returns `size` |
| `Syscall.Read` | src/userprog/syscall.c:392-427 | kills on an invalid buffer, an invalid fd other than 0 and 1, or, for fd 0, a refused echo; fd 0 otherwise stores and echoes the translated keys and returns `size`; fd 1 and an empty slot give -1; otherwise the file's bytes from its position are returned and the position advances |
| `Syscall.Filesize` | src/userprog/syscall.c:457-469 | kills iff the fd is invalid; faults iff its slot is empty; otherwise returns the file's length |
| `Syscall.Tell` | src/userprog/syscall.c:492-505 | kills iff the fd is invalid; faults iff its slot is empty; otherwise returns the position |
| `Syscall.Seek` | src/userprog/syscall.c:472-489 | kills iff the fd is invalid; faults iff its slot is empty; otherwise moves the position only when `position < file_length`, else leaves it |
| `Syscall.Exec` | src/userprog/syscall.c:517-525 | kills iff the command line is not a valid string; otherwise returns the tid, or -1 when no child was created or its load failed, and appends the child's relation |
| `Syscall.Wait` | src/userprog/syscall.c:527-529 | `wait` gives -1 for a pid that is not a child, else the child's status (or blocks), removing the relation; after an exited child's status the relation is freed when the parent held the last reference |
| `Syscall.WaitTwice` | src/userprog/syscall.c:527-529 | a second wait for the same pid returns -1 |
| `Syscall.OpenThenClose` | src/userprog/syscall.c:296-353 | closing the fd that `open` returned closes that file and leaves the table as it was before the open |
| `Syscall.SeekThenTell` | src/userprog/syscall.c:472-505 | `tell` after `seek` reports the position sought when it lies inside the file, and the old position otherwise |
| `SList.FirstGreater` | src/standalone/slist/list.c:35-43 | the insertion point is the first element strictly greater than `x`; everything before it is at most `x` |
| `SList.InsertSortedSplit` | src/standalone/slist/list.c:32-47 | sorted insertion puts `x` right before the first greater element, or at the end |
| `SList.InsertSortedShape` | src/standalone/slist/list.c:32-47 | the old elements keep their relative order and `x` is added exactly once |
| `SList.InsertSortedKeepsOrder` | src/standalone/slist/list.c:35-46 | sorted contents stay sorted, and elements equal to `x` stay ahead of it |
| `SList.ListItem.constructor` | src/standalone/slist/list.c:7-12 | `create_list_item(v)` gives a node with value `v` and no successor |
| `SList.SentinelList.constructor` | src/standalone/slist/main.c:12-15 | a detached sentinel is an empty list |
| `SList.SentinelList.Append` | src/standalone/slist/list.c:14-23 | the contents go from `s` to `s + [x]`; the sentinel's value is unchanged |
| `SList.SentinelList.LinkLast` | src/standalone/slist/list.c:21-22 | linking a new node after the last node appends its value |
| `SList.SentinelList.Prepend` | src/standalone/slist/list.c:25-29 | the contents go from `s` to `[x] + s` |
| `SList.SentinelList.LinkAfter` | src/standalone/slist/list.c:38-39 | splicing a node behind node `k` inserts its value at position `k` |
| `SList.SentinelList.InputSorted` | src/standalone/slist/list.c:32-47 | the contents become `InsertSorted(s, x)` |
| `SList.SentinelList.Clear` | src/standalone/slist/list.c:58-75 | on a non-empty list, the sentinel's `next` becomes null, the contents are empty, and every element node is released |
| `SList.SentinelList.Walk` | src/standalone/slist/list.c:49-56 | the traversal visits the sentinel's value and then the contents, in order |
| `SList.DriverFill` | src/standalone/slist/main.c:19-26 | the driver's appends and prepends give `[10,20,40,50,80,110]` |
| `SList.DriverInsertions` | src/standalone/slist/main.c:29-31 | the three sorted insertions give `[10,20,40,45,50,80,85,110,120]` |
| `SList.DriverInsert` | src/standalone/slist/main.c:29-31 | the list itself holds those contents after the three `input_sorted` calls |
| `SList.DriverScenario` | src/standalone/slist/main.c:5-38 | the traversal shows `-1, 10, 20, 40, 45, 50, 80, 85, 110, 120` before `clear` and only `-1` after it |
| `Strdup.Strlen` | src/standalone/gdb/debug3.c:26 | `strlen` is the index of the first NUL |
| `Strdup.StrlenOfPrefix` | src/standalone/gdb/debug3.c:24-29 | a copy of the bytes up to and including the NUL has the same `strlen` |
| `Strdup.MyStrdup` | src/standalone/gdb/debug3.c:22-31 | the copy is fresh, has length `strlen(original) + 1`, and equals the original up to and including the NUL, so its `strlen` is the same |

## Left out

- Threads, semaphores and locks. Every operation is a sequential transition. A blocked `sema_down` in `process_wait` is the outcome `Blocked`, and the semaphore is the sticky `exited` flag. The races between the child's start and `process_execute` are not modelled.
- `Lifecycle.Process.Execute` does not model the copy of the command line (`strlcpy` into a page) or the handshake with `start_process`. The child's load result is a parameter, and so are whether a page and a thread were available and the new tid.
- The interrupt frame's segment set-up, the `asm` jump to `intr_exit`, `process_activate`, and the page-directory teardown at the end of `process_exit`. These are CPU state and hardware.
- Console output: `printf` records, `dump_stack`, and `print` of the list (which `SentinelList.Walk` replaces with the values it would print).
- The file system (`filesys_open`, `file_read`, `file_write`, `file_seek`, `file_length`, `file_close`) is a map from names to inodes. Files are byte sequences without growth: a write stops at the end of the file.
- The user pool (`palloc_get_page`, `palloc_free_page`) is a list of free kernel pages. The page directory (`pagedir_get_page`, `pagedir_set_page`) is a map from user pages to frames. A kernel address handed to `pagedir_get_page` counts as unmapped.
- `strtok_r` is `ArgStack.Tokens`, with the single delimiter the code gives it.
- `ArgStack.StartProcess` requires fewer than 32 words and a frame that fits in the stack page. The code writes `argv[32]` and the stack page without bounds checks; beyond those limits it corrupts memory, which the model does not describe.
- `ArgStack.StartProcess` requires a command line without NUL bytes. A C string ends at its first NUL.
- `SList.SentinelList.Clear` requires a non-empty list: on an empty list `clear` dereferences a null `first->next`.
- `Lifecycle.ReleaseAll` and `Lifecycle.Process.CleanupChildren` model the intended loop of `cleanup_children`. After `list_remove (e)` and `free (pc)` (process.c:340-341) the code calls `list_next (e)` (process.c:327) on the freed element, whose links `free` has overwritten, so the walk reads an unknown pointer; these members go on with the successor the element had before its removal. `Lifecycle.ReleaseAllAsWritten` models the code and stops with a fault at that step; what the kernel then does depends on the allocator (threads/malloc.c, which is not part of this model).
- `Syscall.Open`: when the table is full, the opened file is returned as `dropped`, and nothing closes it (the leak in the code).
- `Syscall.Filesize`, `Syscall.Seek`, `Syscall.Tell`: an empty slot is the outcome `Faulted`, because `file_length` and `file_tell` assert that the file is not null, and the failed assertion panics the kernel.
- `Syscall.Read`: the bytes stored into the user buffer come back as `stored` rather than being written into the page directory's frames.
- `Syscall.ReadFromStdin`: `input_getc` is a function `key` from the key's index to its byte, and the echo through `write (1, …)` is the sequence `echoed`.
- `Syscall.Decide`: the system-call numbers (lib/syscall-nr.h, not part of this model) are a parameter mapping numbers to calls. The handler's jump to each handler and its store into `eax` are the handlers' own results.
- The handlers for `create`, `remove`, `sleep` and `halt`. Each validates its string, where it has one, as `open` does (`CheckString`), and then calls the file system, the timer or the power-off routine, none of which are part of this model.
- `Lifecycle.Process.Exit`: `thread_exit` is `process_exit` alone. Freeing the thread is not modelled.
- `Syscall.Wait` uses the corrected `WaitReleasing`, which gives up the parent's reference to an exited child's relation; the code (process.c:236-253) does not. `Lifecycle.Process.Wait` models the code. A wait that blocks has no later step in the model where the parent resumes, so the release after a blocked wait is not modelled: the corrected wait is shown only for a child that exited before the wait.
- `Lifecycle.Process.Exit` uses the corrected `process_exit`, which releases the children even while the parent lives; the code (process.c:284-288) does not. `Lifecycle.Process.ExitAsWritten` models the code.
- `Syscall.Open` checks its name with the corrected `CheckString`, which kills the process where the code's `strlen` would fault in the kernel (syscall.c:207-211).
- `Syscall.Exec` checks its command line with the corrected `CheckString`, which kills the process where the code's `strlen` would fault in the kernel (syscall.c:207-211).
- `Syscall.Write` checks its buffer with the corrected `CheckBuffer`, which kills the process where the code's walk (syscall.c:247-257) accepts a buffer with an unmapped later page and `putbuf` or `file_write` then faults in the kernel.
- `Syscall.Read` checks its buffer with the corrected `CheckBuffer`, which kills the process where the code's walk (syscall.c:247-257) accepts a buffer with an unmapped later page and `file_read` or the keyboard loop then faults in the kernel.
- `ArgStack.StartProcess`: an empty command line makes `load` look up a null name. The file system is taken to find no file under it, so the load fails.
- `Paging.AddressSpace.InstallPage` always maps an unmapped page. In the code `pagedir_set_page` can fail to allocate a page table, and then `install_page` fails (process.c:674-675, 684). pagedir.c is not part of this model.
- `Paging.FillPage` fails only for an empty pool, a short file or a mapped page: the allocation failure of `pagedir_set_page` in `install_page` (process.c:674-675, 684) is not modelled, as for `InstallPage`.
- `Paging.StackPageMeaning` maps the stack page whenever a pool page is free and the page is unmapped: the allocation failure of `pagedir_set_page` in `install_page` (process.c:674-675, 684) is not modelled, as for `InstallPage`.
- `Memory.ScanNul` stops with a fault at PHYS_BASE. Kernel memory is not modelled; in the code `strlen` reads on through it without faulting, and where it stops depends on what kernel memory holds.
- `Validate.AsWrittenString` faults for a string that reaches PHYS_BASE before a NUL, because it uses `ScanNul`; the code's `strlen` reads on into kernel memory instead.
- `Validate.IsValidString` gives the verdict `Fault` for a string that reaches PHYS_BASE before a NUL, because it uses `ScanNul`. In the code `strlen` reads on into kernel memory, and the page loop then rejects the string.
- `Validate.StringVerdict` counts a byte at or above PHYS_BASE as unmapped for `strlen`, as `ScanNul` does; the code's `strlen` reads such bytes without faulting.
- `Syscall.Decide` counts an argument word at or above PHYS_BASE as a page fault. Kernel memory is not modelled; in the code the handler reads the word from kernel memory (for example `*(int*)(esp+4)` for `wait` with the stack pointer 4 bytes below PHYS_BASE) and makes the call.
- `Syscall.DecideFaults` states the faults of `Decide`, so it counts an argument word at or above PHYS_BASE as a fault in the same way.

## Findings

| source | as written | input that shows it | evidently intended | confidence | as-written member | corrected member |
|---|---|---|---|---|---|---|
| src/userprog/syscall.c:247-257 | the buffer walk moves its bound to `pg_round_up` of the kernel address `pagedir_get_page` returned, which lies far above the user buffer, so the loop ends after one probe | a buffer of 8192 bytes at 4096 when only the page at 4096 is mapped: accepted | every page the buffer spans is mapped | high (not executed) | `Validate.AsWrittenBufferAcceptsUnmapped` | `Validate.CheckBuffer` |
| src/userprog/syscall.c:207-211 | `is_valid_string` calls `strlen` after checking only the first pointer, so `strlen` reads past the mapped pages before any page check | a mapped page at 4096 filled with non-NUL bytes, nothing mapped above it, string at 8188: `strlen` faults in the kernel | reject a string that runs into unmapped memory | high (not executed) | `Validate.AsWrittenStringFaults` | `Validate.CheckString` |
| src/userprog/process.c:284-288 | a process that has a parent releases its children only when its own relation count reaches 0 | G starts P, P starts C, P exits, then C exits: C's relation keeps one reference and is never freed | the exiting process always gives up its reference to every child relation | medium (not executed) | `Lifecycle.AsWrittenExitLeaks` | `Lifecycle.ExitReleasesChildren` |
| src/userprog/process.c:327-343 | after `list_remove (e)` and `free (pc)` the loop takes `list_next (e)` of the freed element, whose links `free` has overwritten | a first process whose children are [C1, C2], with C1 already exited, exits: C1's relation is freed and the next step reads freed memory, so C2's relation is never reached | take the successor before freeing the element, so every child relation loses the parent's reference | high (not executed) | `Lifecycle.AsWrittenCleanupFaults` | `Lifecycle.ReleaseAll` |
| src/userprog/process.c:236-243 | `process_wait` takes the relation out of the parent's list and never decrements its count, so no later exit reaches it | G starts C, C exits with 7, G waits for C and gets 7, then G exits: the relation keeps one reference and is never freed | after the wait the parent gives up its reference, so the relation is freed | medium (not executed) | `Lifecycle.AsWrittenWaitLeaks` | `Lifecycle.WaitReleasesRelation` |
