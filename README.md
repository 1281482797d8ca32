# A verified model of an OS/161 kernel's memory, file and process bookkeeping

This project models in Dafny the bookkeeping core of an OS/161 teaching
kernel (the abprash/Operating-Systems repository) and proves properties of it:

- the physical frame table ("coremap") and its first-fit kernel page allocator;
- per-process address spaces: the region list, the heap, the stack, load
  preparation, copying and destruction;
- the `sbrk` heap-break system call;
- the 64-slot per-process file-descriptor table, reference-counted file
  handles, and the `dup2`, `lseek`, `open`, `read` and `write` system calls;
- the global process table, which hands out process ids, and the
  per-process thread count;
- the argument buffer and argument-stack layout of `execv`;
- the lock-ordering rule of the stoplight intersection problem.

Each source file is one module. Kernel objects that the code updates in
place are classes with those fields:
- the coremap (`frames` array);
- address spaces (`regions` and `pageTable` sequences, the heap's position);
- file handles and file tables (`slots` array of handle references, so two
  slots, or two tables, can share one handle);
- the process table (`table` array, `lastIndex` cursor, `pidCounter`);
- processes and threads.

Values are datatypes: regions, page-table entries, coremap entries, the execv
image and stoplight crossings.

Calls into code outside the model are parameters of the operation that
makes them, standing for what that code reports:
- kmalloc succeeding (`memOk`, `asOk`);
- the frames `getppages` returns (`frames`);
- copyin and copyinstr statuses, and the 4 bytes `execv`'s copyin of the vector returns (`vecBytes`);
- vfs_open and load_elf errors;
- VOP_READ / VOP_WRITE status and residual count;
- VOP_ISSEEKABLE and VOP_STAT results.

Constants the repository does not define in the modelled files are also
parameters:
- MAX_FILES (`maxFiles`, at most the table's 64 slots);
- PROC_MAX (the process table's length);
- STACKBOTTOM, STACKSIZE and USERSTACK (`StackLayout`);
- ARG_MAX (`argMax`, the size of `execv`'s argument buffer).

PAGE_SIZE is 4096, the value the page-number shifts by 12 imply. Kernel
panics and KASSERTs become preconditions. The one exception is
`free_kpages`, whose panic is part of what it computes and is returned as
a flag. Error numbers are the `Errno` datatype. An error code that a call
out of the model returns and the caller passes on unchanged is
`Passed(code)`.

## Model

| member | source | states |
|---|---|---|
| Coremap.CoreMap.Bootstrap | kern/vm/vm.c:73-101 | `cm_bootstrap`: one entry per physical page, every entry unused (`valid` 0, `chunk` 0), so the map starts tidy. |
| Coremap.FirstFitFrom | kern/vm/vm.c:108-113 | The first-fit search: when it finds a start, that start begins a run of `n` free frames and no lower start at or after `from` does; when it finds none, no such run exists. |
| Coremap.FirstFitFindsLowest | kern/vm/vm.c:108-113 | Any lowest free run at or after `from` is exactly what the first-fit search returns. |
| Coremap.CoreMap.FindFreeRun | kern/vm/vm.c:106-113 | The counting scan succeeds exactly when some run of `n` free frames exists, and then reports the lowest-starting run. |
| Coremap.Allocated | kern/vm/vm.c:105-127 | After `alloc_kpages(n)`, only the lowest free run of `n` frames is marked in use, with `n` on its head and 0 on the rest; with no free run, nothing changes. |
| Coremap.AllocatedTidy | kern/vm/vm.c:115-124 | Allocation keeps every unused frame at run length 0. |
| Coremap.CoreMap.AllocKpages | kern/vm/vm.c:105-127 | The coremap after the call is `Allocated` of the coremap before, the map stays tidy, and 0 is returned. |
| Coremap.FreedHead | kern/vm/vm.c:139-143 | `free_kpages` as written releases the head frame and leaves every other frame as it was. |
| Coremap.CoreMap.FreeKpages | kern/vm/vm.c:129-146 | As written: panics exactly when the frame is not an in-use head or its run reaches the last frame, and otherwise releases only the head frame. |
| Coremap.FreeOfLastRunPanics | kern/vm/vm.c:137 | Counterexample: on two frames, allocating both and freeing them panics. |
| Coremap.FreeLeavesTailInUse | kern/vm/vm.c:139-143 | Counterexample: on three frames, allocating two and freeing them leaves the second in use, so nothing is restored. |
| Coremap.ReleasedRun | kern/vm/vm.c:139-143 | The intended release: exactly the run's frames become unused. |
| Coremap.CoreMap.FreeKpagesRun | kern/vm/vm.c:129-146 | Corrected `free_kpages`: panics exactly when the head, the run's extent or a tail frame is wrong, and otherwise releases the whole run. |
| Coremap.AllocThenFreeRunRestores | kern/vm/vm.c:105-146 | With the corrected free, allocating and then freeing the chosen run does not panic and restores the coremap exactly. |
| AddrSpaces.AddrSpace.Create | kern/vm/addrspace.c:45-66 | `as_create`: no regions, no page-table entries, no heap. |
| AddrSpaces.AddrSpace.DefineRegion | kern/vm/addrspace.c:222-242 | The new region, with nothing saved, becomes the head of the list. The heap region is unchanged at its shifted position. A kmalloc failure is ENOMEM with nothing changed. |
| AddrSpaces.MaxEnd | kern/vm/addrspace.c:266-271 | The running maximum is an upper bound of every region's end, and is attained (0 for no regions). |
| AddrSpaces.RoundUpToPage | kern/vm/addrspace.c:272-275 | Rounding up gives a page-aligned value within one page above its input. |
| AddrSpaces.RoundUpIsLeast | kern/vm/addrspace.c:272-275 | No page boundary below the rounded value reaches the input: the rounding gives the least aligned bound. |
| AddrSpaces.HeapBaseAboveRegions | kern/vm/addrspace.c:263-286 | The heap base is page-aligned, lies at or above every region's end, and is the lowest such page boundary. |
| AddrSpaces.AddrSpace.DefineHeap | kern/vm/addrspace.c:263-286 | `as_define_heap` prepends an empty region at the heap base and records it as the heap. |
| AddrSpaces.AddrSpace.DefineStack | kern/vm/addrspace.c:244-260 | Defines the heap, then the stack region. On success it returns and records USERSTACK as the stack pointer. On ENOMEM only the heap has been added. |
| AddrSpaces.Prepared | kern/vm/addrspace.c:288-298 | Preparing keeps the number of regions. |
| AddrSpaces.AddrSpace.PrepareLoad | kern/vm/addrspace.c:288-298 | Every region becomes writeable with its old write flag saved, and 0 is returned. |
| AddrSpaces.Completed | kern/vm/addrspace.c:300-311 | Completing keeps the number of regions. |
| AddrSpaces.AddrSpace.CompleteLoad | kern/vm/addrspace.c:300-311 | Requires every region to have a saved flag (the assertion). Every saved write flag is restored and the save slot reset; 0 is returned. |
| AddrSpaces.CompleteAfterPrepareRestores | kern/vm/addrspace.c:288-311 | Prepare then complete restores every region's write flag. Freshly defined regions come back unchanged. |
| AddrSpaces.AddrSpace.Copy | kern/vm/addrspace.c:69-133 | `as_copy`: the child has the same regions and heap position, one `pte_copy` per entry with fresh frames, each frame's back-reference at its entry; ENOMEM when the frames run out, which is the source's behaviour without a swap device (with one it panics, see Left out). |
| AddrSpaces.ReleasedSlots | kern/vm/addrspace.c:143-149 | The slots `as_destroy` marks free are exactly the positive slots held by entries, never slot 0. |
| AddrSpaces.FreedFrames | kern/vm/addrspace.c:151-153 | The frames `as_destroy` frees are exactly the entries' frames other than INVAL_PPN. |
| AddrSpaces.AddrSpace.Destroy | kern/vm/addrspace.c:137-178 | Releases exactly `ReleasedSlots` and `FreedFrames` of the table, and empties the table, region list and heap. |
| Sbrk.Kept | kern/syscall/sbrk_syscalls.c:84-110 | The entries kept by a shrink are exactly those whose page lies outside the removed range. |
| Sbrk.Dropped | kern/syscall/sbrk_syscalls.c:84-110 | The entries dropped are exactly those whose page lies in the removed range; the kept and dropped counts add up to the table's. |
| Sbrk.SplitIsPermutation | kern/syscall/sbrk_syscalls.c:84-110 | Kept and dropped split the table: together they hold every entry exactly as often as the table does (as multisets). |
| Sbrk.KeptAllWhenNoneInRange | kern/syscall/sbrk_syscalls.c:84-110 | A table with no page in the range is kept whole, and nothing is dropped. |
| Sbrk.KeptIdempotent | kern/syscall/sbrk_syscalls.c:84-110 | Shrinking the kept entries again keeps them all. |
| Sbrk.SplitEntries | kern/syscall/sbrk_syscalls.c:84-110 | The walk separates the table into exactly `Kept` and `Dropped`. |
| Sbrk.SysSbrk | kern/syscall/sbrk_syscalls.c:46-116 | EINVAL for a misaligned amount or for shrinking past an empty heap; ENOMEM when the new break reaches the stack. Otherwise only the heap size changes, the aligned new break is the old one plus the amount, the old break is returned, and a shrink drops exactly the entries in the freed range. |
| FileHandles.FileHandle.Create | kern/vfs/filehandle.c:37-67 | `filehandle_create`: the given name, one reference, offset 0, unset flag, no file object. |
| FileHandles.Destroy | kern/vfs/filehandle.c:69-83 | The handle is released exactly when it is not NULL and no reference remains. |
| FileTables.FirstEmpty | kern/vfs/filetable.c:78-93 | The lowest empty slot, or -1 exactly when no slot is empty. |
| FileTables.FileTable.Create | kern/vfs/filetable.c:38-47 | 64 empty slots. |
| FileTables.FileTable.CreateCopy | kern/vfs/filetable.c:49-68 | The copy equals the source slot for slot, and each handle's count rises once per slot it occupies; no other field of a handle changes. |
| FileTables.FileTable.Add | kern/vfs/filetable.c:78-93 | The handle goes into the lowest empty slot, which is returned, and gains a reference. A full table gives -1 and no change. |
| FileTables.FileTable.Remove | kern/vfs/filetable.c:95-103 | The slot's handle loses one reference and is released when that was the last; the slot becomes empty. No other slot, and no other field of the handle, changes. |
| FileTables.FileTable.DestroyAll | kern/vfs/filetable.c:70-76 | Every slot becomes empty and each handle loses one reference per slot it held; no other field of a handle changes. |
| Dup2.SysDup2 | kern/syscall/dup2_syscalls.c:46-89 | Equal descriptors return at once. Out of range or an empty `oldfd` is EBADF with nothing changed. Otherwise `newfd` aliases `oldfd`'s handle, which gains a reference (net zero if `newfd` already held it). A different handle in `newfd` loses one. No other slot or count changes, and no handle's name, flag, offset or file object. |
| Lseek.SeekTarget | kern/syscall/lseek_syscalls.c:78-111 | A seek succeeds exactly when `whence` is known and its base plus `pos` is not negative. The new offset is that sum, never negative; every failure is EINVAL. |
| Lseek.SeekCurComposes | kern/syscall/lseek_syscalls.c:88-95 | Two successful relative seeks land where one seek by the sum lands. |
| Lseek.SysLseek | kern/syscall/lseek_syscalls.c:47-120 | EBADF for a closed or out-of-range descriptor, ESPIPE for an unseekable file. Otherwise the seek target is returned and becomes the offset on success. Only that handle's offset may change. |
| Read.SysRead | kern/syscall/read_syscalls.c:46-106 | EBADF for a closed, out-of-range or write-only descriptor, with the offset of a handle found unchanged; VOP_READ's error is passed on with the offset unchanged. Otherwise the bytes read (at most `nbytes`, the request less the residue) are returned and the offset advances by exactly that. |
| Write.SysWrite | kern/syscall/write_syscalls.c:46-101 | EBADF for a closed, out-of-range or read-only descriptor, with the offset of a handle found unchanged; VOP_WRITE's error is passed on with the offset unchanged. Otherwise the bytes written (at most `buflen`) are returned and the offset advances by exactly that. |
| Open.AccessFlag | kern/syscall/open_syscalls.c:79 | The stored flag is between 1 and 4 and is one more than the access mode, `flags` modulo 4. |
| Open.AccessModeGovernsTransfers | kern/syscall/open_syscalls.c:79 | A handle opened write-only cannot be read and one opened read-only cannot be written; any other mode, and a handle whose flag was never set, allows both. |
| Open.SysOpen | kern/syscall/open_syscalls.c:46-95 | NULL is EFAULT and copyinstr or vfs_open errors are passed on, with no handle and no table change. Otherwise a fresh handle carries the name, access flag, offset 0 and vnode. A full table is EMFILE, the handle not installed; else it fills the lowest empty slot, which is returned, and holds two references. |
| Procs.FirstEmptyFrom | kern/proc/proc.c:469-471 | The lowest empty slot at or after the cursor, or none when every such slot is taken. |
| Procs.FirstHolding | kern/proc/proc.c:212-217 | The lowest slot holding the process with the given id, or none exactly when no slot holds it. |
| Procs.ProcTable.Bootstrap | kern/proc/proc.c:236-247 | Cursor 0, pid counter 2, every slot empty. |
| Procs.ProcTable.Add | kern/proc/proc.c:464-496 | A cursor at PROC_MAX is reset to 0. On success: the first empty slot at or after the cursor gets the counter's value as pid, greater than every pid present; the counter rises by 1 and the cursor moves past the slot. Otherwise ENPROC, pid -1, table and counter unchanged, no wrap. Pids stay distinct. |
| Procs.AddMissesFreeSlotBelowCursor | kern/proc/proc.c:468-495 | Counterexample: the search finds no slot although slot 0 is empty, because the cursor is past it. |
| Procs.WrappingSlotFailsOnlyWhenFull | kern/proc/proc.c:468-495 | The intended search with wrap fails exactly on a full table, finds an empty slot otherwise, and agrees with the source wherever the source succeeds. |
| Procs.ProcTable.AddWrapping | kern/proc/proc.c:464-496 | Corrected `processtable_add`: same as `Add` but searching with wrap, so ENPROC means the table is full. |
| Procs.ProcTable.Remove | kern/proc/proc.c:212-217 | The first slot holding the id is cleared and nothing else changes; as ids are distinct, no slot holds it afterwards. |
| Procs.Proc.AddThread | kern/proc/proc.c:375-391 | The thread (without a process) joins this one, whose count rises by 1; 0 is returned. |
| Procs.RemThread | kern/proc/proc.c:402-419 | Requires a positive count (the assertion); the thread leaves its process, whose count falls by 1. |
| Execv.Padding | kern/syscall/execv_syscalls.c:78 | The padding is between 0 and 3 and brings a length of at least 1 to a multiple of 4; for 0 it is 0, as the unsigned wrap gives. |
| Execv.PaddedLengthIsLeastMultiple | kern/syscall/execv_syscalls.c:78-79 | The padded length is the smallest multiple of 4 at or above the string's length. |
| Execv.SizeIsSum | kern/syscall/execv_syscalls.c:79-86 | The padded size of the arguments is the sum of their `arg_lengths`, which is `size_with_pad`. |
| Execv.SizeAtLeast | kern/syscall/execv_syscalls.c:78-79 | Every argument takes at least 4 bytes once padded. |
| Execv.Packed | kern/syscall/execv_syscalls.c:75-87 | The NUL-padded argument layout is as long as the padded size of the arguments. |
| Execv.StringAt | kern/syscall/execv_syscalls.c:76-86 | In that layout, argument `i` sits at the padded size of the arguments before it, followed by its NUL. |
| Execv.Block | kern/syscall/execv_syscalls.c:58-87 | What the loop leaves in `final_args` is as long as the layout. |
| Execv.BlockMatchesPacked | kern/syscall/execv_syscalls.c:58-87 | It equals the NUL-padded layout except in the padding of argument 0 below offset 4, which keeps the bytes the vector copyin put there. |
| Execv.ShortFirstArgumentKeepsVectorByte | kern/syscall/execv_syscalls.c:71-76 | For a first argument `"ls"` the block is `l`, `s`, NUL and the vector's fourth byte. |
| Execv.StringInBlock | kern/syscall/execv_syscalls.c:58-87 | Each argument and its NUL still sit in that block where the layout puts them. |
| Execv.CopyInStrWrites | kern/syscall/execv_syscalls.c:76 | copyinstr replaces the bytes at the copy position by the string and its NUL and leaves every other byte. |
| Execv.OffsetIsSize | kern/syscall/execv_syscalls.c:80-85 | After `n` arguments the copy position is their padded size. |
| Execv.OffsetGrows | kern/syscall/execv_syscalls.c:80-85 | The copy position never moves back. |
| Execv.FillIsBlock | kern/syscall/execv_syscalls.c:75-87 | The first `n` rounds of the loop leave `Block` of those arguments, then the buffer as it was. |
| Execv.FirstFailure | kern/syscall/execv_syscalls.c:75-77 | The lowest index whose copy fails, or none when all succeed. |
| Execv.CopyArgs | kern/syscall/execv_syscalls.c:75-87 | The first copy error is passed on. Otherwise the buffer starts with `Block` of the arguments and is unchanged after it, the lengths are their padded lengths, and `size_with_pad` is their sum. |
| Execv.ArgvPointers | kern/syscall/execv_syscalls.c:128-137 | The `i`th pointer is stored at `stackptr - total_size + 4*i` and holds `stackptr - size_with_pad` plus the padded lengths before argument `i`. |
| Execv.BuildImage | kern/syscall/execv_syscalls.c:89-139 | The block copied out is the first `size_with_pad` bytes of the buffer, that is `Block` of the arguments. The strings end at `stackptr`. One 4-byte slot separates the last argv pointer from them. Each pointer is the address of its argument's string in the block. |
| Execv.SysExecv | kern/syscall/execv_syscalls.c:51-150 | NULL is EFAULT; each call's error is passed on in call order (a failed as_create is ENOMEM); it succeeds exactly when none fails. The buffer is zeroed and its first 4 bytes are those the vector copyin returns; the image then has that layout. |
| Stoplight.DirToLock | kern/synchprobs/stoplight.c:107-114 | Directions 0 to 3 map to the quadrant locks of the same number, any other to NULL. |
| Stoplight.TurnRight | kern/synchprobs/stoplight.c:116-126 | A right turn enters only its own quadrant, under that lock, and so obeys the locking discipline. |
| Stoplight.GoStraight | kern/synchprobs/stoplight.c:127-150 | Going straight enters `direction` then `(direction+3)%4`. It takes the larger index first, releases in the same order, and locks exactly the quadrants it enters. |
| Stoplight.LeftQuadrantsDistinct | kern/synchprobs/stoplight.c:156-158 | A left turn's three quadrants are distinct quadrants. |
| Stoplight.TurnLeft | kern/synchprobs/stoplight.c:153-192 | A left turn enters `direction`, `(direction+3)%4`, `(direction+6)%4`. After the compare-and-swaps, first > second > third, and it locks exactly those quadrants and releases in the same order. |
| Stoplight.NoOppositeOrder | kern/synchprobs/stoplight.c:177-179 | Two cars that obey the discipline never take two shared locks in opposite orders, which rules out a wait cycle between them. |

## Left out

- Locks, spinlocks, semaphores, interrupt levels and the busy-wait loops (kern/proc/proc.c:208, kern/vm/addrspace.c:384) are not modelled. The model is sequential, and the stoplight model keeps only which locks are taken and in what order.
- TLB handling is not modelled: `as_activate`, `as_deactivate` and the TLB shootdown in `sbrk`.
- The swap device, `vm_fault` and `coremap_used_bytes` are outside the modelled core.
- Parts of `cm_bootstrap` are not modelled. `ram_getsize`, `ram_stealmem` and `nextpaddr` are machine calls, so the model starts from the page count. Where the map itself lives in memory is not modelled.
- Coremap.CoreMap.AllocKpages: returns 0 like the source. The model does not compute the kernel address the caller evidently expects, because the source never computes it either.
- Virtual-to-physical conversion in `free_kpages` (`addr - 80000000`, a decimal constant) is not modelled; the model takes the frame number directly.
- The 32-bit widths of `vaddr_t`, `size_t`, `off_t`, `int32_t` and `pid_t` are not modelled: addresses, sizes, offsets and ids are unbounded integers. The one exception is the `size_t` wrap in `execv`'s padding, which is written out.
- kmalloc failures are oracles only in `as_define_region` (`memOk`), `as_create` inside `execv` (`asOk`) and `getppages` (running out of frames). Other allocations are assumed to succeed: `as_create` itself, `filetable_create`, `filetable_createcopy`, `filehandle_create`, `lock_create`, and the `uio`/`iovec` in `sys_read`.
- AddrSpaces.AddrSpace.DefineHeap: the error from its inner `as_define_region` is ignored by the source. The model takes that call's allocation as succeeding.
- `reg_copy` is the identity on region values, so `as_copy` copies region values directly. The field-by-field copy and kmalloc failure of `reg_copy` are not modelled.
- `pte_copy` is metadata only. The memcpy of page contents and the swap read of swapped-out pages are not modelled. Neither is the `panic("nomem?!")` at kern/vm/addrspace.c:362 when `getppages` fails while a swap device is present: the model always returns ENOMEM.
- AddrSpaces.AddrSpace.Copy: on ENOMEM the model releases nothing and returns no address space. The source leaks the partly built space, and this is not modelled.
- `as_destroy` and `sbrk` do not call the frame allocator or the swap bitmap in the model. They return the frames and slots they release (the dropped entries for `sbrk`).
- FileHandles.FileHandle.Create: the source's `kmalloc(sizeof(filehandle))` at kern/vfs/filehandle.c:41 takes the size of the pointer, not of the structure, so the field writes that follow overrun the allocation. The model allocates a whole handle; the overrun is not modelled.
- Sbrk.SysSbrk: deletes the entries through a plain filter. The source frees a removed entry other than the list head without relinking its predecessor, and this memory-safety defect is not modelled.
- `vfs_close` is not modelled, including the calls in `dup2` (which closes the vnode of the handle it drops even when other references remain) and in `execv`.
- The VFS, user-memory and loader calls are oracles: `vfs_open`, `VOP_READ`, `VOP_WRITE`, `VOP_ISSEEKABLE`, `VOP_STAT`, `copyin`, `copyinstr`, `copyout`, `load_elf` and `enter_new_process`. The bytes read or written are not modelled, only the counts.
- Open.SysOpen: the handle's name is the path as copied in. The effect of `vfs_open` on that buffer is not modelled.
- Open.AccessFlag: O_ACCMODE is fixed at 3, its value in OS/161, rather than taken as a parameter, because the mask is applied to the low two bits.
- `execv`'s fixed buffers are sequences: `final_args` has `argMax` bytes, and `arg_lengths[4000]`'s bound is not modelled. ARG_MAX is the parameter `argMax`, as the header defining it is not part of this model.
- Execv.SysExecv: requires the padded arguments to fit in `argMax` bytes. The source's copyinstr is given ARG_MAX as the room left at every position, so longer arguments are written past `final_args`; that overflow is not modelled. The direct reads of `args[arg_count]` from user memory are modelled as the given argument list. Replacing the current address space through `proc_setas` is not modelled.
- Stoplight: `inQuadrant`, `leaveIntersection` and the lock objects are outside the model; a crossing records the order of lock operations and quadrant entries.
- The rest of `proc.c` is not modelled: `proc_create`, `proc_create_runprogram`'s console setup, the rest of `proc_destroy`, and `proc_getas`/`proc_setas`. The same goes for `sys_fork`, `sys_getcwd`, `sys_waitpid` and `sys_getpid` in other files.
- Procs.ProcTable.Add: identifies a process by its pid, so the table's slots hold pids rather than process pointers.

## Findings

| source | as written | input that shows it | evidently intended | confidence | as-written member | corrected member |
|---|---|---|---|---|---|---|
| kern/vm/vm.c:139-143 | The loop bound `coremap[ppn].chunk + ppn` is re-read after the head's chunk is set to 0, so only the head frame of a run is released. | Three unused frames: `alloc_kpages(2)` takes frames 0-1; `free_kpages` of frame 0 leaves frame 1 in use. | Every frame of the run is released, restoring the coremap. | not executed | Coremap.FreeLeavesTailInUse | Coremap.AllocThenFreeRunRestores |
| kern/vm/vm.c:137 | `KASSERT(ppn + chunk < cmap_pcount)` rejects a run that ends at the last frame. | Two unused frames: `alloc_kpages(2)` takes both; freeing frame 0 fails the assertion. | `ppn + chunk <= cmap_pcount`. | not executed | Coremap.FreeOfLastRunPanics | Coremap.CoreMap.FreeKpagesRun |
| kern/proc/proc.c:468-495 | The wrap-around search from slot 0 sits inside the branch that has already found an empty slot, which it always takes first, so it never runs. ENPROC is returned while a slot below the cursor is free. | PROC_MAX 4: four adds, remove slot 1, add (slot 1, cursor 2), remove slot 0; the next add fails with slot 0 empty. | Search from the cursor, then wrap to slot 0; fail only on a full table. | not executed | Procs.AddMissesFreeSlotBelowCursor | Procs.ProcTable.AddWrapping |
