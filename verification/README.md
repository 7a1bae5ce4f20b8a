# Slopix: a verified model of its hardest parts

Slopix is a small operating system with its own compiler, linker, file-system builder and boot loader.
This Dafny project models the parts of it with the most state and arithmetic and proves what each of
them is for. `dafny verify dfyconfig.toml` checks everything.

| files | models | main results |
|---|---|---|
| `CTypes`, `CAst`, `Machine`, `Codegen`, `CodegenValues`, `CodegenReg`, `CodegenProof` | the integer expression compiler (`cmd/cc/codegen.c`, `cmd/cc/type.c`) and the AArch64 subset it targets | typing, compiling and running an expression gives its C11 value, effects and stack discipline; where zero tests and one conversion are wrong, exactly when |
| `Pmm`, `PageTable`, `Vmm`, `VmmCopy` | the page allocator and four-level page tables (`kernel/pmm.c`, `kernel/vmm.c`) | page tables refine a finite map; a failed call leaves memory, free list and count identical; a deep copy is equal and disjoint |
| `FsDisk`, `FsInv`, `Fs`, `FsTrunc`, `FsCut`, `FsRun` | the kernel's block layer (`kernel/fs.c`) | files refine byte arrays; one block invariant is kept by every operation; a truncation frees exactly the right blocks, and exactly when the disk disagrees with the buffers afterwards; whole runs are runs on byte arrays over so many free blocks |
| `Capacity`, `Mkfs`, `BootFs` | the image builder and the boot loader's reader (`cmd/mkfs/mkfs.c`, `boot/fs.c`) | the builder succeeds exactly if everything fits and establishes the kernel's invariant; builder, boot loader and kernel agree on every file of an image |
| `Bio`, `BioRun` | the buffer cache (`kernel/bio.c`) | list, keys, replacement, what readers are shown; whole runs on one device are runs on a plain block array |
| `Descriptors`, `DescriptorSteps`, `DescriptorCalls` | open files, descriptor slots, pipe pages (`kernel/file.c`, `kernel/pipe.c`, `kernel/proc.c`, `kernel/syscall.c`) | under every interleaving of masked sections, counts equal the references held and a pipe page is freed exactly once; every call ends |
| `PipeBuffer`, `PipeProtocol` | pipes (`kernel/pipe.c`, `kernel/proc.c`) | bytes come out in order across counter wrap-around, and nobody sleeps who should not |
| `Malloc`, `Sbrk` | the user heap (`libc/malloc.c`) and the break below it (`kernel/syscall.c`) | blocks stay disjoint and tile the heap; exactly which requests are served properly, and when the break can never grow again |
| `Qsort` | `qsort` (`libc/stdlib.c`) | sorted permutation within 64 stack entries |
| `Macro` | object-like macro expansion (`cmd/cc/preprocess.c`) | any order of replacement ends, for every table, and in the same text |
| `Objects`, `Archives`, `Sections`, `Reloc`, `Linking` | the linker (`cmd/ld`) | symbol choice, archive closure, layout, relocation; from objects to an image in which every place stands for the byte its symbol's chosen definition names |
| `Arith` | integer and set facts shared by the others | |

## How it is modelled

- Code that changes state step by step is a class with the fields of the source and methods proved
  against a function or predicate on the state before and after (`Phys`, `FileSystem`, `Image`,
  `Loader`, `Cache`, `Kernel`, `Pipe`, `PipeSystem`, `Heap`, `Linker`, `Layout`, `Generator`). The
  properties of those functions are lemmas.
- The block invariant `FsInv.Inv` says that mapped blocks lie past the metadata and are marked used, that no
  block is reached through two places of any maps, and that the metadata is marked used.
  `FsInv.FileByte` reads an unmapped block as zeros.
- `Pmm.Phys` keeps the free list inside the pages, as the kernel does: a free page is zero but for its
  first word. `Vmm` and `VmmCopy` carry a ghost tree beside the real entries.
- `DescriptorCalls.Kernel` has one method per interrupt-masked section; `Run` interleaves them in any
  order and returns the states it went through (`DescriptorSteps.Turned` relates them).
  A process between two sections holds or owes references through its program counter.
  `PipeProtocol.PipeSystem` does the same for one pipe; testing the ring and going to sleep is one step;
  `PipeProtocol.Moves` relates its states, `BioRun.Answers` and `FsRun.Answers` those of the other runs.
- `Mkfs.Image` keeps a ghost copy of the disk whose bitmap is always up to date, so that the kernel's
  lemmas apply to each append; the real bitmap is written at the end.
- `CodegenReg.Reg` predicts all 64 bits of the result register from a tree and the values of its locals;
  `CodegenReg.Sound` says that every zero test met in the evaluation sees a register that is zero
  whenever its value is.
- `Bio.Seen` is what a reader is shown for a block: a valid buffer if there is one, else the disk. The file
  system modules work on that array. `FsCut.ItruncTo` is the one operation that releases a changed buffer
  unwritten; it returns the array as the buffers show it beside the one on the disk.
- Machine words are integers with their wrap-around written out: 32-bit offsets in `fs_readi` and
  `fs_writei`, 64-bit sizes in the allocator, 32-bit pipe counters, addresses and instruction words in
  the linker. Masks and shifts of bit fields are division and remainder by powers of two.

## Where the code departs from what it promises

Each of these has a lemma or a contract that says exactly when it happens.

- `cast_table` has no entry for signed char to unsigned short (`cmd/cc/codegen.c:420`), so a negative
  value keeps its high bits: `CodegenValues.CastExact`.
- `~` on a 4-byte value acts on all 64 bits and a following zero test sees the high half
  (`cmd/cc/codegen.c:516-524`): `CodegenProof.BranchExact` and `CodegenProof.FlagExact` for every test,
  `CodegenReg.ComplementFaithful` and `CodegenReg.ComplementByShape` for the complement.
- `fs_itrunc_to` clears entries of the first-level table without writing it back
  (`kernel/fs.c:508`); once the buffer is reused the table names blocks that are free: `FsCut.ItruncTo`,
  `FsCut.DenseStale`, `FsRun.Run`.
- `fs_itrunc_to` zeroes the rest of the last block kept only when that is a direct block
  (`kernel/fs.c:423-431`); in an indirect one the old bytes stay past the end: `FsCut.TailDone`.
- `fs_readi` adds offset and count in 32 bits without a check (`kernel/fs.c:279-285`); when the sum wraps to
  the size or less, the read goes on past the end of the file: `Fs.ReadLengthExact`, `Fs.ReadsPastEnd`.
- `malloc` rounds up and adds the header without checking for wrap-around, and passes the sum to `sbrk`
  as a signed number (`libc/malloc.c:24-60`): `Malloc.Heap.Malloc`, `Malloc.SaneMeans`,
  `Malloc.InsaneServed`, `Malloc.InsaneRequests`.
- `sys_sbrk` leaves the pages mapped that a failed growth got, and all pages on a shrink
  (`kernel/syscall.c:426-442`); the next growth meets them and is refused for ever: `Sbrk.Space.SysSbrk`,
  `Sbrk.Space.Run`.
- `mkfs` computes byte offsets in 32 bits (`cmd/mkfs/mkfs.c:62-82`): `Mkfs.Addressable`.
- The boot loader reads block 0 in place of an absent table (`boot/fs.c:93-110`): `BootFs.Loader.Bmap` and
  `BootFs.HoleUnseen`; on every image the builder writes block 0 is blank and holes are seen as holes
  (`BootFs.MakeImage`, `BootFs.BlankBootBlock`).
- `pipewrite` answers -1 when the readers go away in mid-call although bytes were accepted
  (`kernel/pipe.c:104-107`): `PipeProtocol.PipeSystem.WriteSection`.
- The second pass of `resolve_archives` never finds anything: `Archives.Linker.Pass` settles every
  reference in one pass and finds nothing where all are settled.

## Model

| member | source | states |
|---|---|---|
| CAst.CommonTypeIsUsualArith | cmd/cc/type.c:144-194 | get_common_type gives, for every pair of integer types, the type section 6.3.1.8 of C11 prescribes |
| CAst.AddTypeWellTyped | cmd/cc/type.c:196-341 | the typed tree is well typed and its type is the C11 type of the expression |
| CAst.AddTypePreservesMeaning | cmd/cc/type.c:196-341 | the typed tree has the C11 value and side effects of the untyped one, undefined exactly when that is |
| CAst.ArithPreservesMeaning | cmd/cc/type.c:190-194 | the usual conversions of both operands preserve the meaning of every arithmetic and comparison operator |
| CAst.ShiftPreservesMeaning | cmd/cc/type.c:196-341 | converting only the left operand preserves the meaning of shifts |
| CAst.ControlPreservesMeaning | cmd/cc/type.c:196-341 | typing preserves &&, ||, ?: and comma, short circuit included |
| CAst.EvalInRange | cmd/cc/type.c:196-341 | evaluation stays inside the types: results and every local hold values of their type |
| Machine.FindUnique | cmd/cc/codegen.c:23-26 | with unique labels a jump lands on the one definition |
| Codegen.Generator.Push | cmd/cc/codegen.c:28-31 | one push appended, depth one more |
| Codegen.Generator.Pop | cmd/cc/codegen.c:33-36 | one pop appended, depth one less |
| Codegen.Generator.Store | cmd/cc/codegen.c:297-329 | the pop of the address and the store of the width are appended |
| Codegen.Generator.GenExpr | cmd/cc/codegen.c:460-852 | gen_expr appends exactly the compiled code, takes label numbers in order and leaves depth as it was |
| Codegen.Generator.GenBinary | cmd/cc/codegen.c:763-852 | right operand first, pushed around the left one |
| Codegen.Generator.GenAssign | cmd/cc/codegen.c:563-590 | address pushed around the value |
| Codegen.Generator.GenLogAnd | cmd/cc/codegen.c:600-614 | the short-circuit code with one fresh label number |
| Codegen.Generator.GenLogOr | cmd/cc/codegen.c:615-629 | the short-circuit code with one fresh label number |
| Codegen.Generator.GenCond | cmd/cc/codegen.c:630-641 | both arms with one fresh label number |
| CodegenValues.CastExact | cmd/cc/codegen.c:417-458 | the conversion code is right for every pair of types and every value if and only if it is not a negative signed char going to unsigned short |
| CodegenValues.CastMeans | cmd/cc/codegen.c:417-458 | that value is the one of the target type with the operand's bit pattern |
| CodegenValues.ZeroTestExact | cmd/cc/codegen.c:331-341 | the 64-bit zero test answers the C question if and only if the register is zero whenever its low half is |
| CodegenValues.OpCorrect | cmd/cc/codegen.c:763-852 | every binary operator leaves the C value of its operands in x0 |
| CodegenValues.DivisionMeans | cmd/cc/codegen.c:791-805 | value and register of / and % for every quotient with a remainder smaller than the divisor and of the sign of the dividend, as section 6.5.5 of C11 asks; only the least value divided by -1 wraps |
| CTypes.TruncDivExact | cmd/cc/codegen.c:791-805 | there is exactly one such quotient |
| CodegenValues.BitwiseMeans | cmd/cc/codegen.c:806-814 | each bit of &, | and ^, in value and register, comes from the same bits of the operands |
| CodegenValues.CompareCorrect | cmd/cc/codegen.c:819-848 | the condition code chosen is the comparison of the operand type, signed or unsigned |
| CodegenValues.NegCorrect | cmd/cc/codegen.c:503-515 | negation leaves the wrapped C value |
| CodegenReg.LoadedRel | cmd/cc/codegen.c:256-295 | a loaded local is held with the extension of its type: sign for signed, zero for unsigned |
| CodegenReg.RegHolds | cmd/cc/codegen.c:460-852 | the predicted 64 bits of x0 hold the C value of any tree with sound tests |
| CodegenReg.CompilableSound | cmd/cc/codegen.c:331-341 | trees whose tested operands have the right shape are sound whatever the values |
| CodegenReg.TestExact | cmd/cc/codegen.c:331-341 | the emitted zero test answers the C question if and only if the operand's register is zero whenever its value is |
| CodegenReg.BoolExact | cmd/cc/codegen.c:442-458 | conversion to _Bool is right if and only if the register is zero whenever the value is |
| CodegenReg.NegFaithful | cmd/cc/codegen.c:503-515 | a negation may be tested exactly when its operand may |
| CodegenReg.ComplementFaithful | cmd/cc/codegen.c:516-524 | a complement may be tested exactly unless the operand is all ones and its register is not |
| CodegenReg.ComplementByShape | cmd/cc/codegen.c:516-524 | !~a is right for every value of a sign-extended operand, and for a zero-extended one if and only if it is not all ones |
| CodegenReg.NegatedComplement | cmd/cc/codegen.c:516-524 | !~(-b) is right for every int b |
| CodegenReg.DifferenceComplement | cmd/cc/codegen.c:516-524 | !~(b - 1) is right if and only if b is not 0 |
| CodegenProof.Correct | cmd/cc/codegen.c:460-852 | any well-typed tree whose evaluation meets no unfaithful zero test, anywhere in a program with unique labels, runs to its end with the predicted register contents, sp restored, locals updated as the evaluator says, and nothing at or above sp changed outside the locals |
| CodegenProof.CompileLabels | cmd/cc/codegen.c:23-26 | the labels of a tree are distinct and lie in its own range of numbers |
| CodegenProof.CompilerCorrect | cmd/cc/codegen.c:460-852 | end to end: typing, compiling and running an expression gives its C11 value, effects and stack discipline, for every expression whose evaluation meets no unfaithful zero test and converts no negative signed char to unsigned short |
| CodegenProof.ShapesSuffice | cmd/cc/codegen.c:460-852 | no condition on values is needed when the tested operands have the right shape |
| CodegenProof.BranchExact | cmd/cc/codegen.c:600-641 | the jump of &&, || and ?: on any operand goes where C says if and only if the operand's register is faithful |
| CodegenProof.FlagExact | cmd/cc/codegen.c:442-529 | the flag of ! and of a conversion to _Bool is right if and only if the operand's register is faithful |
| CodegenProof.StoreLocal | cmd/cc/codegen.c:297-329 | an assignment updates its local and no other byte of the frame |
| CodegenProof.PushedSurvives | cmd/cc/codegen.c:28-36 | a pushed word survives any evaluation that runs below it |
| CodegenProof.BinCase | cmd/cc/codegen.c:763-852 | the code of a binary operator, operands evaluated right to left |
| CodegenProof.LogAndCase | cmd/cc/codegen.c:600-614 | the code of && skips its right operand exactly when the left is zero |
| CodegenProof.LogOrCase | cmd/cc/codegen.c:615-629 | the code of || skips its right operand exactly when the left is nonzero |
| CodegenProof.CondCase | cmd/cc/codegen.c:630-641 | the code of ?: runs exactly one arm |
| CodegenProof.AlignToBounds | cmd/cc/codegen.c:49-51 | align_to gives the least multiple not below its argument |
| CodegenProof.AssignOffsets | cmd/cc/codegen.c:1013-1055 | locals get disjoint, aligned slots inside the frame, whose size is a multiple of 16 |
| CodegenProof.OffsetsMakeFrame | cmd/cc/codegen.c:1013-1055 | that layout is a frame the generated code may rely on |
| Pmm.AscendingUnique | kernel/pmm.c:60-133 | the sorted list is determined by its set of pages |
| Pmm.ImageUnique | kernel/pmm.c:60-133 | allocator memory, links included, is determined by the free pages and the pages in use |
| Pmm.Phys.constructor | kernel/pmm.c:38-58 | pmm_init lists exactly the whole unreserved pages, ascending, with free_count its length |
| Pmm.Phys.Alloc | kernel/pmm.c:60-71 | the lowest free page, zeroed, or failure exactly when none is left |
| Pmm.Phys.AllocContiguous | kernel/pmm.c:73-114 | removes exactly the first run of n consecutive free pages, zeroed; fails exactly when there is none |
| Pmm.Phys.FirstRun | kernel/pmm.c:73-114 | the scan finds the first run, or that there is none |
| Pmm.Phys.CutRun | kernel/pmm.c:95-110 | unlinking a run keeps the list threaded through the remaining pages |
| Pmm.Phys.Free | kernel/pmm.c:116-133 | out-of-range, misaligned and double frees change nothing; any other page goes back at its place |
| Pmm.Phys.FreeContiguous | kernel/pmm.c:135-139 | exactly the RAM pages of the run go back |
| PageTable.WordDecodes | kernel/vmm.c:11-25 | an entry made from an address and attribute bits gives both back |
| PageTable.LookupPut | kernel/vmm.c:63-88 | replacing one slot of a page-table tree changes the lookups that go through it and no others |
| PageTable.PutRepr | kernel/vmm.c:63-88 | storing one entry re-represents the tree with that slot replaced |
| PageTable.PutPages | kernel/vmm.c:63-88 | replacing a slot replaces exactly its pages |
| Vmm.UndoRestores | kernel/vmm.c:45-48 | clearing the entry and freeing the page undoes one step of the walk |
| Vmm.Rollback | kernel/vmm.c:44-50 | the rollback gives back every table added, newest first |
| Vmm.Walk | kernel/vmm.c:28-60 | finds the last-level table; with alloc it fails exactly when free pages are fewer than missing tables, and then everything is as before |
| Vmm.PathExact | kernel/vmm.h:9-13 | the four table indices are the digits of the page number, so two addresses share them exactly when they lie in one page |
| Vmm.DescriptorBits | kernel/vmm.c:15-25 | each field of a page descriptor: address, valid page, access flag, shareability, user access, read-only exactly unless writable, execute-never bits |
| Vmm.MapPage | kernel/vmm.c:63-75 | succeeds exactly when the page is unmapped and the tables can be had; then every address outside the page is mapped as before, and the page may be read, and written exactly if asked; a failure leaves tables, memory, free list and count identical |
| Vmm.UnmapPage | kernel/vmm.c:77-89 | succeeds exactly on a mapped page, reports its frame; every address outside the page is mapped as before |
| VmmCopy.FreeWalk | kernel/vmm.c:100-119 | every page below a table is given back exactly once |
| VmmCopy.FreeAll | kernel/vmm.c:122-128 | vmm_free gives back every table and data page exactly once and touches nothing else |
| VmmCopy.CopiedLookup | kernel/vmm.c:139-183 | a copied tree maps the same pages with the same attributes and contents |
| VmmCopy.CopyWalk | kernel/vmm.c:139-183 | a deep copy on fresh pages; when it stops early the pages taken are exactly those reachable from the partial copy |
| VmmCopy.CountIsPages | kernel/vmm.c:100-119 | the count of tables and mapped pages is the size of the set of pages |
| VmmCopy.Copy | kernel/vmm.c:186-198 | vmm_copy succeeds exactly when there are as many free pages as the source uses; success is a disjoint equal copy, failure restores memory, free list and count |
| VmmCopy.Validate | kernel/vmm.c:223-260 | accepts exactly the empty range and unwrapped ranges below the user limit all of whose pages are accessible as asked |
| VmmCopy.OnePage | kernel/vmm.c:239-257 | a range inside one page is accessible exactly if any address of the page is |
| FsDisk.WordSet | kernel/fs.c:196-204 | storing one entry of a table block changes that entry only |
| FsDisk.MarkBits | kernel/fs.c:137-174 | setting or clearing a bitmap bit changes the bit of that block and no other |
| FsDisk.DataSlotInjective | kernel/fs.c:176-265 | different file blocks use different places of the block map |
| FsInv.TakeKeeps | kernel/fs.c:137-162 | a free block belongs to nobody: taking it moves no address and keeps the block invariant |
| FsInv.LinkKeeps | kernel/fs.c:176-265 | entering a fresh zeroed block in an empty place of a map changes that place only and keeps the invariant |
| FsInv.WriteKeeps | kernel/fs.c:317-358 | overwriting a data block changes those bytes of that file, nothing else, and keeps the invariant |
| FsInv.FillGrows | kernel/fs.c:176-265 | filling a hole changes no byte of any file |
| Fs.FileSystem.Balloc | kernel/fs.c:137-162 | the lowest free block, marked and zeroed; failure exactly when every block is used |
| Fs.FileSystem.Bfree | kernel/fs.c:164-174 | exactly the bit of the block is cleared |
| Fs.FileSystem.Fill | kernel/fs.c:176-193 | one level of the block map: the block there, allocated if absent |
| Fs.FileSystem.Bmap | kernel/fs.c:176-265 | the block of every file block through direct, indirect and double-indirect parts; fails exactly past the largest file or on a full disk; files do not change |
| Fs.FileSystem.Readi | kernel/fs.c:279-315 | returns the file's bytes from the offset, zeros past the end, of exactly the length fs_readi settles on unless a hole meets a full disk or the largest file is passed; files do not change |
| Fs.ReadLengthExact | kernel/fs.c:279-285 | that length is the part of the range inside the file if and only if the end of the range does not wrap, or wraps to more than the size; otherwise it is the whole count |
| Fs.ReadsPastEnd | kernel/fs.c:279-285 | an input where the read goes past the end |
| Fs.FileSystem.Writei | kernel/fs.c:317-358 | rejects exactly the bad ranges; otherwise stores a prefix of the source, all of it unless the disk is full, extends the size to cover it, and changes no other byte of any file |
| Fs.FileSystem.WriteThenRead | kernel/fs.c:279-358 | whatever a write reports as written, a read of that range returns, whole |
| Fs.WriteKeepsDense | kernel/fs.c:317-358 | writing keeps a file free of holes |
| Fs.DenseReadsAll | kernel/fs.c:279-315 | a read of a file without holes is exactly the requested part of its content |
| FsTrunc.DropDirect | kernel/fs.c:433-438 | the direct blocks from an index on, and no others, are given back |
| FsTrunc.DropInd | kernel/fs.c:440-464 | the indirect blocks from an entry on, and the table when that is all of it, are given back |
| FsTrunc.ClearMid | kernel/fs.c:487-499 | one second-level table: its entries from the cut on are given back |
| FsTrunc.DropDind | kernel/fs.c:466-513 | the double-indirect part from the cut on is given back; as the buffers show it always cleanly, on the disk if and only if the first-level table is not left naming a table that was given back |
| FsTrunc.RewriteTop | kernel/fs.c:470-508 | clearing entries of the first-level table in its buffer unmaps exactly those tables and what they hold |
| FsTrunc.StaleBreaks | kernel/fs.c:508 | otherwise the disk holds an entry for a block marked free |
| FsCut.Itrunc | kernel/fs.c:360-410 | gives back exactly the blocks reachable from the inode and empties it; other files are untouched |
| FsCut.ItruncTo | kernel/fs.c:412-519 | a length past the end changes nothing; otherwise the cut is exactly as it should be in what the buffers show, for every length, with zeros past the new end unless the last block kept is an indirect one; on the disk the invariant is kept if and only if the first-level table is not left stale, and then the two are the same |
| FsCut.TailDone | kernel/fs.c:423-431 | what the blocks hold past the new end: zeros, or the old bytes when the last block kept is not direct |
| FsCut.CutData | kernel/fs.c:412-519 | the data blocks given back are exactly those at or past the end |
| FsCut.CutTable | kernel/fs.c:466-513 | a second-level table is given back only if it held no kept block, and always when it lies past the end |
| FsCut.ShortCut | kernel/fs.c:412-519 | up to the single-indirect limit nothing stale is left and the whole double-indirect part goes |
| FsCut.CutEverything | kernel/fs.c:360-410 | fs_itrunc cuts every place of the map |
| FsCut.DenseStale | kernel/fs.c:508 | for a file without holes and with nothing mapped past its end, the table is left stale if and only if a double-indirect block is kept and the file goes on past the table the cut falls in |
| FsCut.CutContent | kernel/fs.c:412-519 | the file is its first len bytes and every other file is the same |
| FsCut.CutUnreferenced | kernel/fs.c:412-519 | a block given back is marked free and reached by no file |
| FsRun.ReadIs | kernel/fs.c:279-315 | a read replies with the requested part of the byte array and changes no file; it is short only when no block is left |
| FsRun.WriteIs | kernel/fs.c:317-358 | a write is a splice of a prefix of the source into the byte array, of all of it unless no block is left |
| FsRun.CutIs | kernel/fs.c:360-519 | a truncation is a prefix of the byte array and takes no free block |
| FsRun.Run | kernel/fs.c:279-519 | every sequence of reads, writes and truncations gets one reply for each, all those of byte arrays over a disk with that many free blocks, and the block invariant holds afterwards; it ends early only at a cut whose stale table buffer is reused, and then the invariant is broken |
| FsRun.ImageIsGood | cmd/mkfs/mkfs.c:568-818 | every image the builder finishes is a state from which such runs start |
| Mkfs.Addressable | cmd/mkfs/mkfs.c:62-82 | sectors have distinct byte offsets exactly for images up to four gigabytes |
| Mkfs.Image.constructor | cmd/mkfs/mkfs.c:589-609 | a blank image meets the invariant |
| Mkfs.Image.FillSlot | cmd/mkfs/mkfs.c:148-193 | one level of the builder's block map: the next block of the image fills an empty place and no other place changes; fails exactly on an empty place with no block left |
| Mkfs.Image.BlockFor | cmd/mkfs/mkfs.c:148-193 | the three branches of the builder's block map agree with the kernel's; exactly the blocks missing on the way are taken, and it fails exactly when fewer are left |
| Capacity.MissingIs | cmd/mkfs/mkfs.c:148-193 | the next block of a file takes one block, and one for each table it is the first to need; a block within the file takes none |
| Capacity.SnugGrows | cmd/mkfs/mkfs.c:148-193 | filling that block keeps the map exactly as large as the file needs |
| Mkfs.Image.Append | cmd/mkfs/mkfs.c:134-210 | adds exactly the data at the end of one file; succeeds exactly if the file does not get too large and the blocks it then needs, tables included, are left |
| Mkfs.Image.RoundSize | cmd/mkfs/mkfs.c:798-803 | the root directory's size grows to a block boundary past it and no byte of any file changes |
| Mkfs.Image.WriteBitmap | cmd/mkfs/mkfs.c:117-132 | exactly the handed-out blocks are marked and the boot block is blank; the image then meets the kernel's block invariant with every file as built |
| BootFs.Loader.Bmap | boot/fs.c:86-115 | agrees with the kernel's map on every mapped block, and on a hole if and only if the words read from block 0 in place of absent tables are zero |
| BootFs.BlankBootBlock | boot/fs.c:86-115 | with a blank block 0 every hole is seen as one |
| BootFs.HoleUnseen | boot/fs.c:93-98 | an input where a hole is not |
| BootFs.Loader.ReadFile | boot/fs.c:244-273 | the whole file when every block below the size is mapped and the buffer is large enough, and where holes are seen as holes failure in every other case |
| BootFs.Build | cmd/mkfs/mkfs.c:134-210 | pieces appended to any files in any order: every file gets its own pieces, in order and without holes; succeeds exactly if every inode exists, no file gets too large and the blocks suffice |
| BootFs.MakeImage | cmd/mkfs/mkfs.c:568-818 | succeeds exactly if metadata, files and block-map tables fit; a finished image meets the kernel's invariant, has a blank block 0 and holds in every file exactly what was appended, the root directory rounded up with zeros |
| BootFs.PackedSizes | cmd/mkfs/mkfs.c:798-803 | all sizes are within the largest file if and only if the root directory did not fill it |
| BootFs.PackAndRead | boot/fs.c:208-274 | whenever everything fits, bytes appended to the files of an image in any order and chunks are returned unchanged, from every file, by the boot loader and by the kernel |
| Descriptors.SlotAlive | kernel/file.c:11-67 | a live descriptor's file is referenced, and a pipe end behind it is open with its page never freed |
| Descriptors.FreedOnce | kernel/pipe.c:53-71 | a pipe page is given back at most once, and only with both ends shut |
| Descriptors.QuietCounts | kernel/file.c:33-67 | with no call under way a file's count is the number of slots holding it, and a page is freed exactly when no slot refers to either end |
| Descriptors.RefBound | kernel/file.c:33-67 | a file's count bounds what any process holds |
| DescriptorCalls.StepInv | kernel/file.c:11-67 | a step that balances references, ends and pages keeps the invariant |
| DescriptorCalls.Kernel.constructor | kernel/proc.c:16-45 | the initial tables meet the invariant |
| DescriptorCalls.Kernel.FindFile | kernel/file.c:11-31 | the first unreferenced file, if any |
| DescriptorCalls.Kernel.FindSlot | kernel/file.c:195-203 | the lowest empty slot, if any |
| DescriptorCalls.Kernel.OpenStart | kernel/file.c:12-31 | the first unreferenced file is taken, untyped; fails exactly when there is none |
| DescriptorCalls.Kernel.OpenFinish | kernel/syscall.c:481-508 | the file gets its type and the lowest empty slot, or is left to be closed when no slot is empty |
| DescriptorCalls.Kernel.CloseStart | kernel/syscall.c:511-522 | fails exactly on an empty slot; otherwise clears it, the reference still held |
| DescriptorCalls.Kernel.FileClose | kernel/file.c:44-67 | drops one reference; the last one untypes the file and leaves its pipe end to close |
| DescriptorCalls.Kernel.PipeClose | kernel/pipe.c:53-71 | shuts the end; the second end to go leaves the page to free |
| DescriptorCalls.Kernel.FreePage | kernel/pipe.c:64-68 | the page is given back for the first time |
| DescriptorCalls.Kernel.DupStart | kernel/syscall.c:538-550 | the lowest empty slot receives the file before its count is raised |
| DescriptorCalls.Kernel.DupCount | kernel/file.c:33-42 | the count catches up |
| DescriptorCalls.Kernel.PipeStart | kernel/pipe.c:9-15 | the first file of a new pipe, or nothing |
| DescriptorCalls.Kernel.PipeSecond | kernel/pipe.c:9-15 | the second file, or the first one to be closed again |
| DescriptorCalls.Kernel.PipeFinish | kernel/syscall.c:709-737 | both ends and both slots, or on any failure both files to be closed again, the page with them |
| DescriptorCalls.Kernel.ForkStart | kernel/syscall.c:241-251 | an unused process entry becomes the child with empty slots |
| DescriptorCalls.Kernel.ForkSlot | kernel/syscall.c:281-288 | one descriptor is counted for the child |
| DescriptorCalls.Kernel.ForkAssign | kernel/syscall.c:281-286 | the child's slot receives it |
| DescriptorCalls.Kernel.ExitSlot | kernel/proc.c:340-346 | one descriptor of an exiting process is closed |
| DescriptorCalls.Kernel.ExitClear | kernel/proc.c:340-346 | its slot is cleared afterwards |
| DescriptorCalls.Kernel.Run | kernel/syscall.c:281-286 | every schedule of the masked sections of all processes is carried out section by section, and the invariant holds after each |
| DescriptorCalls.Kernel.Turn | kernel/syscall.c:241-288 | one section, of a call that begins or is under way, as the transition relation says |
| DescriptorSteps.TurnProgress | kernel/syscall.c:481-550 | every turn inside a call brings its end nearer |
| DescriptorSteps.CallsEnd | kernel/syscall.c:481-550 | a process inside a call that gets a bounded number of turns is out of it, whoever else runs in between |
| DescriptorCalls.UsingIsSafe | kernel/file.c:79-86 | while a process is inside a read or write its file is referenced and the pipe allocated and open |
| PipeBuffer.RingPut | kernel/pipe.c:119-121 | storing at the write counter appends a byte, also when the 32-bit counter wraps |
| PipeBuffer.RingTake | kernel/pipe.c:88-89 | advancing the read counter drops the oldest byte, also when it wraps |
| PipeBuffer.Pipe.Take | kernel/pipe.c:84-90 | the oldest bytes, as many as asked or there are, leave the buffer in order |
| PipeBuffer.Pipe.Put | kernel/pipe.c:103-122 | the next bytes of the source, as many as fit, enter in order |
| PipeProtocol.PipeSystem.ReadSection | kernel/pipe.c:73-97 | sleeps exactly on an empty pipe with a writer open and no signal pending; otherwise delivers the oldest bytes and wakes the writers; end of file only when there is no writer |
| PipeProtocol.PipeSystem.Deliver | kernel/pipe.c:84-96 | the copying part of that section |
| PipeProtocol.PipeSystem.WriteSection | kernel/pipe.c:99-128 | fails once no reader is left; otherwise accepts what fits and wakes the readers; returns the length when all is in, sleeps when bytes remain, and on a signal returns what was accepted, -EINTR if nothing |
| PipeProtocol.PipeSystem.Accept | kernel/pipe.c:108-127 | the copying part of that section |
| PipeProtocol.PipeSystem.Resume | kernel/proc.c:161-173 | a signal ends the call with the bytes accepted so far, otherwise the pipe is tested again |
| PipeProtocol.PipeSystem.Wake | kernel/proc.c:182-189 | exactly the processes asleep on the channel become runnable |
| PipeProtocol.PipeSystem.Signal | kernel/proc.c:242-271 | a sleeper is woken with the signal pending |
| PipeProtocol.PipeSystem.CloseEnd | kernel/pipe.c:53-71 | the end is shut and sleepers on the other side are woken |
| PipeProtocol.PipeSystem.Run | kernel/pipe.c:53-128 | every schedule is carried out section by section; delivered bytes followed by buffered bytes are the accepted bytes, at most 512 are buffered, nobody sleeps who should not, and each process's accepted bytes are those its finished writes report and the current one's |
| PipeProtocol.PipeSystem.Turn | kernel/pipe.c:53-128 | one event: a call begins, a section runs, a signal arrives or an end is closed |
| PipeProtocol.NoDeadlock | kernel/pipe.c:73-128 | a reader and a writer never sleep on the pipe at once |
| PipeProtocol.ByAppend | kernel/pipe.c:99-128 | one writer's bytes do not mix with another's |
| Bio.Unlinks | kernel/bio.c:117-118 | taking a buffer out keeps next and prev inverse along the ring |
| Bio.Pushes | kernel/bio.c:119-122 | putting a buffer in front keeps them inverse |
| Bio.KeysUnique | kernel/bio.c:49-73 | no two held or valid buffers have one key, although all start with the same |
| Bio.OneDevice | kernel/bio.c:75-110 | with one device no two valid buffers stand for one disk block |
| Bio.SeenIs | kernel/bio.c:49-98 | what is seen of a block is the data of its one valid buffer |
| Bio.Cache.constructor | kernel/bio.c:30-47 | the list holds all buffers, none valid |
| Bio.Cache.Bget | kernel/bio.c:49-73 | the first buffer with the key, otherwise the unheld buffer nearest the tail re-keyed; fails exactly when every buffer is held; a held buffer is never re-keyed |
| Bio.Cache.Search | kernel/bio.c:52-58 | the first buffer of the list with the key |
| Bio.Cache.Victim | kernel/bio.c:60-69 | the unheld buffer nearest the tail |
| Bio.Cache.Read | kernel/bio.c:75-98 | a held valid buffer with what the block is seen to be; what is seen of other blocks stays, but a re-keyed buffer's block falls back to the disk |
| Bio.Cache.Write | kernel/bio.c:100-110 | the block array is updated at the buffer's block; exactly which other views of that block change, and when the cache stays clean |
| Bio.Cache.Release | kernel/bio.c:112-126 | the last release moves the buffer to the front; the list stays a permutation of all buffers; nothing is seen changed, and the cache stays clean exactly if the buffer was written |
| BioRun.SeenIsPlain | kernel/bio.c:75-110 | in a run on one device what is seen is the plain array |
| BioRun.Serve | kernel/bio.c:49-126 | one call: the reply and the new contents are those of the plain array |
| BioRun.Run | kernel/bio.c:49-126 | every sequence of calls on one device gets one reply for each, all those of a plain array that starts as the disk: reads, buffers given out, and when none is to be had; the disk is that array but for changes not written yet |
| Malloc.SaneMeans | libc/malloc.c:19-27 | the requests served properly, in numbers |
| Malloc.SaneGrowth | libc/malloc.c:59-63 | a sane request is refused exactly when there is no room, and otherwise takes the block and its header |
| Malloc.InsaneServed | libc/malloc.c:24-63 | an insane request is served a block that is too small whenever 48 bytes can be had |
| Malloc.InsaneRequests | libc/malloc.c:24-63 | two such requests: one is given 16 bytes, one moves the break down |
| Malloc.TiledCovers | libc/malloc.c:40-67 | when blocks tile the heap every address is in exactly one block |
| Malloc.SplitLaid | libc/malloc.c:34-45 | splitting keeps blocks aligned, disjoint and tiling |
| Malloc.Heap.Sbrk | kernel/syscall.c:418-444 | the break moves by n, or stays: exactly which requests are refused, given whether the pages can be had |
| Sbrk.Space.SysSbrk | kernel/syscall.c:418-444 | exactly which calls are refused, which pages a growth maps before it stops, and when the page the next growth needs is left mapped |
| Sbrk.StuckStays | kernel/syscall.c:426-440 | with that page mapped a call is refused exactly if it goes past the page or below zero |
| Sbrk.Space.Run | kernel/syscall.c:418-444 | once the next page is mapped already, exactly the calls that stay inside the page of the break are served, and no page is ever mapped again |
| Malloc.Heap.Malloc | libc/malloc.c:19-69 | first fit, cut down to the block size when the rest can hold a block, then growth; fails exactly without a fit when sbrk refuses, for every request; the caller gets all bytes asked for if and only if the request is sane, and then blocks stay aligned, disjoint and tiling and live blocks keep their bytes |
| Malloc.Heap.Extend | libc/malloc.c:59-68 | growth by what the wrapped sum of size and header says, refused exactly when sbrk refuses that; exactly one block with its header for a sane request |
| Malloc.Heap.TakeBlock | libc/malloc.c:33-56 | the block is cut to the size if the rest can hold a block, which takes its place in the list; no other size or state changes |
| Malloc.TakenTook | libc/malloc.c:33-56 | splitting and unlinking change one size and add at most one block |
| Malloc.Heap.Free | libc/malloc.c:71-80 | the block goes to the front of the free list; other live blocks are untouched |
| Malloc.Heap.Realloc | libc/malloc.c:99-130 | the common prefix survives, other live blocks are untouched, tiling is lost only by shrinking; fails exactly when the block is too small, nothing fits and sbrk refuses, and then changes nothing; all bytes asked for if and only if the request is sane |
| Qsort.SplitOrdered | libc/stdlib.c:412-441 | partitioning replaces a pending range by its two parts |
| Qsort.HalvingPush | libc/stdlib.c:426-440 | stack entry k holds at most n / 2^k elements, so fewer than 64 are ever used |
| Qsort.Partition | libc/stdlib.c:402-421 | median of three and Lomuto: smaller elements before the pivot, the others after, a permutation within the range; with three or more elements the pivot is the middle one of the first, middle and last |
| Qsort.Descend | libc/stdlib.c:400-442 | the inner loop: the larger part is pushed, the smaller sorted at once |
| Qsort.Sort | libc/stdlib.c:385-444 | sorts by any total preorder, permutes, terminates, stays within 64 stack entries |
| Macro.ReplacementLevel | cmd/cc/preprocess.c:694-705 | every token of a replacement may meet one macro name fewer |
| Macro.ReplacementLighter | cmd/cc/preprocess.c:694-705 | replacing a token makes the rest of the text lighter, for every table |
| Macro.ExpansionAppend | cmd/cc/preprocess.c:909-926 | expansion is independent of the surrounding text |
| Macro.ExpansionHidden | cmd/cc/preprocess.c:677-705 | every macro-named token of the output is in its own hideset |
| Macro.Idempotent | cmd/cc/preprocess.c:909-926 | expanding twice is expanding once |
| Macro.RewriteKeeps | cmd/cc/preprocess.c:694-705 | replacing a macro name anywhere by its body keeps the expansion and makes the text lighter |
| Macro.AnyOrder | cmd/cc/preprocess.c:909-926 | in whatever order names are replaced, it comes to an end and the end is the expansion |
| Macro.PlainBody | cmd/cc/preprocess.c:694-705 | a macro whose body names no macro expands to exactly its body |
| Macro.HidesetContains | cmd/cc/preprocess.c:126-133 | membership by name |
| Macro.HidesetUnion | cmd/cc/preprocess.c:115-124 | the names of both lists |
| Macro.AddHideset | cmd/cc/preprocess.c:147-157 | copies of the tokens with larger hidesets |
| Macro.Append | cmd/cc/preprocess.c:160-173 | the first list followed by the second |
| Macro.ExpandMacro | cmd/cc/preprocess.c:677-705 | a token is replaced exactly when it is an identifier naming a macro not in its hideset, by the tokens of the body with their hidesets, that of the name and the name added; the other tokens stay |
| Macro.Preprocess | cmd/cc/preprocess.c:909-926 | the rescanning loop ends for every macro table and yields the expansion, in which nothing can be replaced any more |
| Archives.TableIs | cmd/ld/symbol.c:71-115 | the table holds for each name the unique strong definition if there is one, else the first weak one; linking fails exactly when two strong definitions share a name |
| Archives.TableOfSymbols | cmd/ld/symbol.c:71-115 | in terms of the objects' symbols: every defining symbol has its name in the table, with value, section and object of the only strong one or else of the first; linking fails exactly when two strong symbols share a name |
| Archives.Linker.CollectOne | cmd/ld/symbol.c:71-115 | the definitions of one object enter the table in order |
| Archives.Linker.CollectAll | cmd/ld/symbol.c:71-115 | the table is that of all objects in order |
| Archives.Linker.FindSymbol | cmd/ld/archive.c:195-202 | the member of the first index entry with the name, -1 if no entry has it |
| Archives.Linker.TakeMember | cmd/ld/archive.c:173-193 | a member not extracted before becomes the last object and defines the name |
| Archives.Linker.Extract | cmd/ld/symbol.c:167-182 | the first archive that lists the name gives its member, or no archive has it |
| Archives.Linker.Pass | cmd/ld/symbol.c:147-187 | one pass settles every reference, those of members extracted during it included; a pass over settled references finds nothing |
| Archives.Linker.ResolveArchives | cmd/ld/symbol.c:125-192 | terminates; every open reference is in the table or in no archive; each member was taken for an undefined reference or the entry point |
| Archives.Linker.CheckUndefined | cmd/ld/symbol.c:194-238 | accepts exactly when every strong reference and the entry point are in the table |
| Archives.Link | cmd/ld/main.c:368-375 | a successful link has every strong reference and for every name the value and section of the chosen symbol, and every other reference is in no archive; it fails only at two strong symbols of one name or at a name that nothing defines and no archive lists |
| Sections.AlignUpIs | cmd/ld/section.c:62-67 | the least multiple not below the value |
| Sections.CategoryMeans | cmd/ld/section.c:18-36 | text, rodata, data and bss are the allocated sections whose names begin so |
| Sections.Layout.Merge | cmd/ld/section.c:82-123 | every allocated section of a known name becomes exactly one piece: aligned, disjoint from the others, holding its bytes |
| Sections.Layout.AddPiece | cmd/ld/section.c:94-120 | one piece at the next aligned offset, the gap zeroed |
| Sections.Layout.AssignAddresses | cmd/ld/section.c:125-153 | output sections are aligned and disjoint and data starts on a fresh page |
| Sections.Layout.FindPiece | cmd/ld/section.c:155-166 | the piece of an input section, or that there is none |
| Sections.Layout.FinalAddress | cmd/ld/section.c:180-224 | the value of a symbol of a section in the image: section address plus piece offset plus value |
| Sections.SymbolLands | cmd/ld/section.c:180-224 | that address is where the named byte ended up, with the alignment its section asked for |
| Sections.NoOverlap | cmd/ld/section.c:82-153 | different input bytes have different addresses |
| Reloc.Branch26Exact | cmd/ld/reloc.c:97-118 | a patched branch goes to S + A and keeps its opcode; patching fails exactly when no branch reaches |
| Reloc.Adr21Exact | cmd/ld/reloc.c:120-136 | the same for ADR |
| Reloc.Adrp21Exact | cmd/ld/reloc.c:138-157 | the same for ADRP and pages |
| Reloc.Lo12Exact | cmd/ld/reloc.c:159-219 | the low twelve bits, scaled by the access size; fails exactly on misalignment |
| Reloc.PairAddress | cmd/ld/reloc.c:138-219 | ADRP and a low-12 access together form the whole address |
| Reloc.PatchedExact | cmd/ld/reloc.c:83-231 | for every kind, patching succeeds exactly when the value can be encoded and then the word stands for it |
| Reloc.ApplyOne | cmd/ld/reloc.c:83-231 | one place patched in the section data, no other byte |
| Reloc.ApplyAll | cmd/ld/reloc.c:264-277 | the inner loop over one section's relocations, their symbols resolved: with places apart, success exactly when all values can be encoded; then every place holds what the standard asks and all other bytes are untouched |
| Linking.UpdateSymbolValues | cmd/ld/section.c:180-200 | every symbol of the table gets its final value: absolute ones keep theirs, the others become addresses |
| Linking.ResolveRelocSymbol | cmd/ld/reloc.c:47-73 | S of a relocation: the table's definition for a global name in it, otherwise the object's own symbol, zero where there is none |
| Linking.PlacesApart | cmd/ld/reloc.c:247-282 | places of different relocations never meet in the image |
| Linking.ApplySection | cmd/ld/reloc.c:253-277 | every relocation of one input section is applied inside its piece; fails only at a value no word can hold |
| Linking.ApplyRelocations | cmd/ld/reloc.c:234-282 | every relocation of every section of every object is applied and no other byte is changed; fails only at a value no word can hold |
| Linking.LinkImage | cmd/ld/main.c:365-420 | from objects and archives to the image: chosen definitions, disjoint aligned sections holding their bytes, every place standing for S + A; fails only at a clash, a missing name or a value no word can hold |
| Linking.ReachesDefinition | cmd/ld/reloc.c:234-282 | a place that refers by name to a symbol defined in a section of the image stands for the address where the byte that the chosen symbol names ended up, plus the addend |

## Left out

- Compiler: pointers, arrays, structs, calls, floats, bit-fields, inline assembly, globals, statements, `switch` with negative labels, and the frames of functions with stack-passed arguments.
- Compiler: constants narrower than int, and `~`, `<<`, `>>` on operands narrower than int, whose promotion the typing pass omits; such trees are outside `CAst.Promotable`.
- Compiler: the parser and tokenizer; trees are the input. The output is instructions, not text.
- File system: inode records on disk, `fs_iupdate`, directories, paths, link counts and inode locks; inodes are values beside the disk. Device errors do not occur.
- File system: the block layer is sequential, as its callers hold inode locks, and works on the block array; `BioRun.Run` shows that the cache behaves as one when clients write their changes, and `Bio.Cache.Release` with `Bio.Cache.Read` what is shown when they do not.
- FsRun.Run: a first-level table left changed in its buffer is reused at once or not before the next write of it; reuse in between is not modelled.
- FsCut.Itrunc: it shares the step methods of the truncation to a length, so the entries of tables about to be freed are not rewritten, on disk the same.
- Mkfs.Image.Append: a table block that would lie past the end of the image counts as failure at once; the builder writes it and exits on the data block it needs next.
- Mkfs.Image.constructor: images whose metadata does not fit, the blocks of the superblock and of the inodes, and the contents of directory entries are not modelled.
- BootFs.Build: inodes are written by appends only; `create_device` writes an inode record without checking its number against the table (`cmd/mkfs/mkfs.c:301-320`), which is not modelled.
- BootFs.Loader.ReadFile: path lookup before the read is not modelled.
- Vmm.Walk: TLB and barrier instructions have no effect in the model; `vmm_copyinstr` is left out.
- Pmm.Phys.constructor: the position of the kernel in RAM is a parameter.
- Bio.Cache.Read: concurrent use of one buffer, waiting for the disk and device errors are left out.
- DescriptorCalls.Kernel.ForkStart: `proc_alloc` is one step, and memory failures of fork before the descriptor loop have no descriptor effect and are left out; so are inode reference counts, process reaping and descriptors set up for the first process.
- PipeProtocol.PipeSystem.Run: one pipe; that no process is inside a call on a freed pipe is `DescriptorCalls.UsingIsSafe`. Preemption between the last test and the sleep is excluded.
- Malloc.Heap.Malloc: the break is moved by nobody else, headers are kept apart from the bytes of blocks, and growth is bounded by physical memory; whether the pages for a growth can be had is a parameter, decided by `Sbrk.Refuses`; `calloc` is left out.
- Sbrk.Space.SysSbrk: the number of pages that can be allocated and mapped is a parameter; other mappings of the process are the pages in `mapped`.
- Qsort.Sort: elements are values and not byte strings; the ends of ranges on the stack are exclusive.
- Macro.Preprocess: directives, function-like and built-in macros, and the origin of tokens are left out; the macro table is a map.
- Archives.Linker.ResolveArchives: the symbol table's hash chains are a map, archive parsing is left out, and an index is taken to name members that define the symbols it lists.
- Sections.Layout.Merge: 64-bit wrap-around of sizes, and the kernel's and the boot loader's own layouts, are left out; alignments are powers of two, as ELF requires.
- Reloc.ApplyAll: the numbering of relocation types is left out; each place is taken to lie inside its section and apart from the others.
- Linking.LinkImage: the plain link mode; the kernel and boot-loader modes, writing the ELF file and debug sections are left out.
- Devices, scheduling, interrupts and signals beyond waking a sleeper are left out.
