# A verified model of the kernel's heap, threads and formatted output

This project models three parts of a small i386 kernel and proves what they promise:

- the **heap** (`src/kernel/heap.c` over the intrusive list of `src/lib/list.h`): a first-fit
  allocator whose free-list nodes live in the memory it manages;
- the **threads** (`src/kernel/thread.c`, `thread_asm.S`, and the IRQ path of
  `interrupts_asm.S` and `interrupts.c`): the run queue threaded through the thread structs, the
  cooperative scheduler, and the context switch on a small machine with interrupts at every
  instruction boundary;
- **formatted output** (`src/lib/printf.c`): integer conversion through a 32-byte digit buffer and
  the format interpreter over an abstract output function.

The code is modelled as it is written: arrays and object fields updated in place, with the
original's loops and branches. Memory is one array of words indexed by byte address; the heap, the
thread structs, the stacks and the CPU share it. Each method is proved against a function or
predicate on values, and the laws are proved about those.

| file | contents |
|---|---|
| `Words.dfy` | 32-bit words |
| `IntrusiveList.dfy` | the circular list in memory |
| `HeapSpec.dfy`, `HeapTiling.dfy`, `HeapHistory.dfy`, `HeapDrift.dfy` | the allocator on values: its functions, how blocks tile the arena, whole histories, and the merge overhead as written |
| `HeapMemory.dfy` | the allocator on memory |
| `Scheduler.dfy` | the scheduler as a transition system |
| `Machine.dfy`, `Coroutines.dfy` | the CPU with its interrupts and context switches; whole runs of switches |
| `ThreadState.dfy`, `Kernel.dfy` | threads in memory, and the kernel's thread operations |
| `Numerals.dfy`, `Ntoa.dfy`, `NtoaLaws.dfy` | digits, integer conversion, and what it promises |
| `Format.dfy`, `Sinks.dfy`, `Printf.dfy`, `FormatLaws.dfy` | the format language, the output functions, the interpreter, and the language's laws |
| `NtoaStandard.dfy`, `Columns.dfy`, `NtoaConforms.dfy` | what ISO C99 asks of an integer directive, text in a field, and exactly when the code prints what is asked |
| `DirectiveLaws.dfy` | what each directive and the text between directives print |
| `Deviations.dfy` | inputs at which the code departs from its promise |

`dafny verify dfyconfig.toml` checks everything.

## Where the code and its promise part

Each condition below is an if-and-only-if in a lemma, and an input that fails it is worked out in
`Deviations` or beside the lemma.

- **The merge overhead.** Every layout computation of the heap uses a header of 12 bytes
  (`src/kernel/heap.c:63`, `:137`, `:186`), but a merge adds `sizeof(*b)`, which is 16
  (`src/kernel/heap.c:95`). The overhead is a parameter of the model. For 12 the allocator keeps
  the arena tiled, coalesced and canonical. For 16, the code as written:
  - A history keeps the arena tiled if and only if no free in it has a free neighbour, and then it
    does what it would with 12 (`LiteralHistoryTiles`). A free undoes the malloc before it if and
    only if that malloc did not split (`LiteralFreeUndoesMalloc`).
  - The recorded sizes drift by exactly four bytes for every merge, modulo 2^32 (`HistoryDrift`).
    Memory holds what is recorded as long as every header that a malloc splits off has room
    (`RunCalls`).
  - The drift is not harmless. After k rounds of malloc and free a request for all that the block
    claims is granted memory that ends 4k bytes beyond it (`VendsBeyond`; on the arena [16, 1028),
    one round of 100 bytes and a request for 1004 end at 1032). And a split can put its header over
    whatever lies behind the arena (`SplitOverHead`; with the list head there, nine rounds and a
    request for 992 overwrite it, and the recorded size becomes an address:
    `SplitOverHeadWrites`).
- **`align_up`** wraps to 0 for sizes above 2^32 - 4, and such a request is granted a block that is
  too small: a block holds the bytes asked for if and only if the size did not wrap
  (`FirstFitVends`, `MallocWraps`).
- **The sign of a number** is dropped when the digit buffer is full (`src/lib/printf.c:264-274`):
  `ReadsBack`, `PrintedIntegerReadsBack`; `%.32d` of -1 loses it.
- **`#`** strips leading characters when they fill the field (`src/lib/printf.c:244-249`), real
  digits included: `HashRule`, `HashReadsBack`; `%#2x` of 0x12 prints `0x`. So `%#p` loses digits of
  every address from 2^24 on (`PointerAlternate`).
- **A `-` flag** makes the code ignore the precision (`src/lib/printf.c:230-240`), and zeros cannot
  fill a field wider than 32: `PrecisionMet`, `FieldFilled`; `%-.5d` of 7 prints `7`, and `%040d`
  prints 32 characters.
- **ISO C99** section 7.19.6.1 says what an integer conversion prints. `NtoaStandard` says it on the
  directive and its arguments, with numerals of any length, and `NtoaConforms` proves for every
  integer directive exactly when the code prints it. Beside the above, the code departs from it
  where a negative precision argument counts as 0 instead of none (`%.*d`,
  `src/lib/printf.c:639-641`), where `#` adds no zero to an octal 0 of precision 0, or a zero too
  many beside a precision, and where a binary number has more than 32 digits.

## Model

| member | source | states |
|---|---|---|
| IntrusiveList.ListInit | src/lib/list.h:79-83 | the node becomes a ring of itself, and only its two words change |
| IntrusiveList.ListInsert | src/lib/list.h:91-98 | a node apart from the ring comes between two neighbours: the longer ring is linked both ways, and no word but the four link words changes |
| IntrusiveList.ListAddTail | src/lib/list.h:105-108 | the node becomes the last of the ring |
| IntrusiveList.ListDel | src/lib/list.h:110-121 | the ring without the node is linked both ways, the node's own pointers are null, and nothing else changes |
| IntrusiveList.LinkedFrame | src/lib/list.h:48-51 | a ring depends on its own link words alone |
| HeapHistory.TilingPartitions | src/kernel/heap.c:109-190 | in a tiled heap every byte of the arena is in exactly one block, header included, and no other byte is in any |
| HeapHistory.TiledGeometry | src/kernel/heap.c:109-190 | the free list strictly ascends, all blocks are aligned and inside the arena, distinct blocks are apart |
| HeapHistory.CompactSeparates | src/kernel/heap.c:83-102 | in a coalesced heap no free block ends where another begins |
| HeapTiling.OnePass | src/kernel/heap.c:83-102 | one pass over the free list of any layout of the arena, with however many free neighbours in a row, leaves the free list of the fully coalesced layout |
| HeapTiling.FreeCompacts | src/kernel/heap.c:150-176 | with overhead 12, freeing a live block of any tiled heap leaves it tiled and coalesced, whether or not the neighbours were free |
| HeapTiling.MallocKeepsCompact | src/kernel/heap.c:109-148 | allocation keeps the heap tiled and coalesced, split or not |
| HeapTiling.Canonical | src/kernel/heap.c:83-190 | the live blocks of a tiled and coalesced heap determine its free list |
| HeapHistory.HistoryCompact | src/kernel/heap.c:83-190 | with overhead 12, every history of calls that frees only live blocks keeps the heap tiled and coalesced |
| HeapHistory.HistoryCanonical | src/kernel/heap.c:83-190 | two histories that leave the same blocks live leave the same heap; freeing everything, in any order, restores the single original block |
| HeapHistory.FirstFitVends | src/kernel/heap.c:109-148 | NULL exactly when the size is 0 or no free block is large enough; otherwise a block from the lowest fitting address, aligned, inside the arena, apart from every live block, with less than 44 bytes to spare; it holds the bytes asked for if and only if aligning the size did not wrap |
| HeapHistory.SplitRule | src/kernel/heap.c:129-143 | in any heap, for the first free block with room: with less than 44 bytes to spare it is handed out whole and leaves the list; otherwise exactly the aligned size is, and the rest, behind a header of 12 bytes and at least 32 bytes long, takes its place on the list |
| HeapHistory.FreeUndoesMalloc | src/kernel/heap.c:109-176 | with overhead 12, freeing what was just allocated restores the very same free list |
| HeapDrift.HistoryDrift | src/kernel/heap.c:95 | an account of the recorded blocks with overhead 16, over every history: free bytes plus bytes handed out equal bytes at the start plus bytes returned plus four per merge, modulo 2^32 |
| HeapDrift.LiteralHistoryTiles | src/kernel/heap.c:83-190 | as written, the arena stays tiled through a history if and only if no free in it has a free neighbour; then the history does what it would with overhead 12 |
| HeapDrift.VendsBeyond | src/kernel/heap.c:83-148 | as written, after k splitting rounds a request for all that the block claims is granted a block that ends 4k bytes past the original one |
| HeapMemory.SplitOverHead | src/kernel/heap.c:133-140 | as written, after k rounds a split can put its header past the original block, over the list head |
| HeapMemory.SplitOverHeadAt | src/kernel/heap.c:133-140 | an input: arena [16, 1028), nine rounds of 100 bytes, a request for 992; the size word of the new header is the list head |
| HeapMemory.SplitOverHeadWrites | src/kernel/heap.c:133-142 | what the split then leaves in memory: the recorded size is the new block's own address |
| HeapDrift.LiteralFreeTiles | src/kernel/heap.c:83-102 | as written, a free keeps the tiling if and only if no free block adjoins the freed one; then it is the intended free, otherwise the free bytes are wrong |
| HeapDrift.LiteralFreeUndoesMalloc | src/kernel/heap.c:133-140 | as written, malloc then free restores the heap if and only if malloc did not split |
| HeapDrift.RoundsDrift | src/kernel/heap.c:83-102 | as written, k rounds of a splitting request leave one block exactly 4k bytes larger |
| HeapDrift.TotalDetermined | src/kernel/heap.c:83-190 | two tiled heaps with the same live blocks have the same number of free bytes |
| HeapMemory.Heap.constructor | src/kernel/heap.c:104-190 | `heap_init` makes one free block from the first aligned address to the arena's end, in memory, tiled and coalesced |
| HeapMemory.Heap.FindFit | src/kernel/heap.c:120-127 | the search stops at the first free block with room, or at the list head when there is none |
| HeapMemory.Heap.HeapMalloc | src/kernel/heap.c:109-148 | memory then holds exactly the heap that first fit and split prescribe; the pointer is the vended payload or NULL, and on NULL memory is untouched; only headers are written, no word of a live payload |
| HeapMemory.Heap.Split | src/kernel/heap.c:133-140 | splitting writes the two sizes and links the new node in, both parts on the list |
| HeapMemory.Heap.InsertOrdered | src/kernel/heap.c:162-170 | the freed block is inserted in address order, by either branch |
| HeapMemory.Heap.HeapDefragFreeList | src/kernel/heap.c:83-102 | the safe traversal that deletes as it goes terminates and computes the coalescing pass, for either overhead |
| HeapMemory.Heap.HeapFree | src/kernel/heap.c:150-176 | memory then holds exactly the heap that ordered insert and coalescing prescribe; NULL changes nothing; payloads of the other live blocks are untouched; overhead 12 keeps the tiling, 16 if and only if there is no free neighbour |
| HeapMemory.Heap.RunCalls | src/kernel/heap.c:109-176 | over any history, for either overhead, memory holds the recorded blocks as long as every header split off has room |
| HeapMemory.CompactHasRoom | src/kernel/heap.c:133-142 | with overhead 12 every history has that room |
| HeapMemory.LiteralHasRoom | src/kernel/heap.c:133-142 | with overhead 16 every history has that room in which no free has a free neighbour |
| HeapMemory.TiledHasRoom | src/kernel/heap.c:133-142 | in a tiled heap the header split off always has room, as `HeapMalloc` requires |
| HeapMemory.MallocKeepsPayloads | src/kernel/heap.c:129-143 | writing only free headers, old and new, changes no live payload and nothing outside the arena |
| HeapMemory.FreeKeepsPayloads | src/kernel/heap.c:161-174 | writing only the freed header and free headers changes no payload of the other live blocks and nothing outside the arena |
| Scheduler.RunInv | src/kernel/thread.c:123-167 | in every run the queue is what was created and not yet dispatched, dispatch follows creation, everything dispatched but the running thread has finished |
| Scheduler.QueueInvariant | src/kernel/thread.c:65-91 | in every run `no_threads` is the length of the queue, which is duplicate-free and holds only ready threads, neither idle nor current |
| Scheduler.PicksItself | src/kernel/thread.c:137-153 | `thread_reschedule` picks the thread it leaves if and only if the idle thread calls it with an empty queue |
| Scheduler.SwitchesAway | src/kernel/thread.c:137-167 | in no run does a switch go from a thread to itself, and the leaver is not queued again |
| Scheduler.FifoDispatch | src/kernel/thread.c:123-153 | in every run threads are dispatched in creation order, each at most once |
| Scheduler.DispatchedAfterQueue | src/kernel/thread.c:65-91 | a thread created behind k queued threads is dispatched after exactly k others, and never once the idle thread runs |
| Scheduler.IdleLast | src/kernel/thread.c:123-135 | the idle thread is dispatched only when every thread created so far has finished, exactly once and in order |
| Scheduler.RoundRobin | src/kernel/thread.c:137-153 | threads that stay ready take turns: after one `thread_reschedule` by each, every one has run once, in queue order, and queue and current thread are as before |
| Scheduler.OnlyReadyQueued | src/kernel/thread.c:145-148 | whoever calls `thread_reschedule`, the idle thread and threads that are not ready are not queued |
| Scheduler.YieldsToIdle | src/kernel/thread.c:137-153 | with an empty queue a ready thread gives way to the idle thread and is queued |
| Machine.Cpu.BuildFrame | src/kernel/arch/i386/cpu/interrupts_asm.S:7-19 | the gate, the stub and `pushal` leave `struct interrupt_stack_frame` of the interrupted registers on the stack |
| Machine.Cpu.EnterIsr | src/kernel/arch/i386/cpu/interrupts_asm.S:1-21 | through either stub form `isr_main` gets a pointer to that frame, and no word at or above the old stack pointer changes |
| Machine.Cpu.IsrMain | src/kernel/arch/i386/cpu/interrupts.c:85-106 | the end of the interrupt is signalled, then the handler registered for the frame's vector runs, once, and nothing above the argument changes |
| Machine.Cpu.LeaveIsr | src/kernel/arch/i386/cpu/interrupts_asm.S:22-25 | unwinding the frame restores every register, the flags and the instruction pointer |
| Machine.Cpu.Interrupt | src/kernel/arch/i386/cpu/interrupts_asm.S:7-25 | an IRQ is transparent: all registers are as before and no word at or above `esp` changes, whatever the handler leaves in caller-saved registers and below; its line is acknowledged and the handler in the table's entry for the line runs, if it is not NULL |
| Machine.Cpu.ThreadRestore | src/kernel/arch/i386/thread_asm.S:28-33 | with any IRQs after each pop, the registers saved in the frame are restored and control returns to its return address |
| Machine.Cpu.ThreadContextSwitchAsm | src/kernel/arch/i386/thread_asm.S:12-33 | with any IRQs after each of its instructions, the switch saves the caller's registers and stack pointer and resumes the other stack; nothing else changes but words below the two stack pointers |
| Machine.Cpu.ThreadLoadFirstAsm | src/kernel/arch/i386/thread_asm.S:3-5 | with any IRQs on the way, the first thread's frame is restored |
| Machine.IrqsInvisible | src/kernel/arch/i386/thread_asm.S:12-33 | two executions of a switch with different IRQs end in the same registers and agree on the saved frame, the saved stack pointer and every word not below a stack pointer |
| Machine.IrqTable.Register | src/kernel/arch/i386/cpu/interrupts.c:116-122 | registration changes one entry of the table and enables the line |
| Machine.RegisteredRuns | src/kernel/arch/i386/cpu/interrupts.c:40-53 | after the registration of a line an IRQ of vector 32 + line is acknowledged and runs that handler with its argument, or none when the function is NULL; other vectors do what they did |
| Coroutines.CallIsSafe | src/kernel/thread.c:99-103 | a switch between two threads with disjoint stacks meets every demand of the assembly routine |
| Coroutines.SuspendedHolds | src/kernel/arch/i386/thread_asm.S:12-33 | over any run, nothing in a suspended thread's saved frame or above it changes until it is resumed |
| Coroutines.Resumes | src/kernel/arch/i386/thread_asm.S:12-33 | over any run of computing, spawning and switching, a resumed thread returns to its own call site with the `ebp`, `ebx`, `edi`, `esi` and stack words it had, `esp` just past the return address |
| ThreadState.RestoreEntersMain | src/kernel/thread.c:189-214 | restoring the initial frame enters `thread_main` with fn and arg, return address 0 and zero callee-saved registers |
| ThreadState.OwnedAreLaid | src/kernel/thread.c:321-333 | threads whose blocks come from one sound heap have stacks and stack-pointer slots apart, as the results on whole runs demand |
| ThreadState.InitialIsParked | src/kernel/thread.c:181-214 | a thread that was never dispatched is suspended like any other |
| ThreadState.SwitchTakesOver | src/kernel/thread.c:99-103 | a switch to such a thread enters `thread_main`, writes only private words of the two threads and leaves the heap's bookkeeping alone |
| ThreadState.SwitchedHold | src/kernel/thread.c:137-153 | after a switch memory agrees with the scheduler's next state on every thread's struct and frame and on the queue |
| Kernel.Threads.SetupStack | src/kernel/thread.c:169-215 | for any aligned stack of at least 32 bytes, the entry frame stands at its top and nothing outside the frame and the slot is written |
| Kernel.Threads.AllocThread | src/kernel/thread.c:254-345 | both allocations or neither, and failure exactly when the heap cannot grant 28 bytes and then 4096: on failure the heap and the id counter are as before; on success two new live blocks, the struct initialised with id, name, stack size and ready flag, the frame built |
| Kernel.Threads.RunQueueAdd | src/kernel/thread.c:65-70 | the thread's node is linked last in the queue; only link words change, and the heap's bookkeeping stands |
| Kernel.Threads.RunQueuePop | src/kernel/thread.c:79-91 | the first thread of the queue is removed and returned, with its assertion as the precondition |
| Kernel.Threads.ThreadCreate | src/kernel/thread.c:308-345 | all or nothing, and failure exactly when the heap cannot grant 28 bytes and then 4096: on failure heap, queue, threads and id counter are as before; on success a thread on blocks of its own joins as the scheduler prescribes, with the next id, its name and a stack of 4096 bytes, and every other thread is intact |
| Kernel.Threads.GetNext | src/kernel/thread.c:123-135 | the thread the scheduler prescribes, every thread's struct and stack intact |
| Kernel.Threads.FinishThread | src/kernel/thread.c:155-167 | the current thread's exit takes the scheduler's step; the next thread, another one, enters `thread_main` with its own function and argument on its own stack, with any IRQs on the way |
| Kernel.Threads.StartScheduler | src/kernel/thread.c:347-359 | the first thread enters `thread_main` with its own function and argument, and the state is the scheduler's |
| Kernel.Threads.Compute | src/kernel/thread.c:155-162 | a thread may write any word of its own stack without harm to the kernel's state |
| Kernel.Threads.ThreadMalloc | src/kernel/heap.c:109-148 | a thread's own `heap_malloc` keeps the kernel's state and every thread; the block it gets is new and no thread's |
| Kernel.Threads.ThreadFree | src/kernel/heap.c:150-176 | a thread's own `heap_free`, of NULL or of a block that no thread lives in, keeps the kernel's state and every thread |
| Kernel.Threads.WriteBlock | src/kernel/heap.c:130-147 | a thread may write any word of a heap block that no thread lives in without harm to the kernel's state |
| Kernel.Threads.TakeIrq | src/kernel/arch/i386/cpu/interrupts_asm.S:7-25 | an IRQ taken on the running thread's stack, at any point, leaves its registers, its stack from `esp` up and the kernel's state as they were |
| Kernel.Threads.ThreadInit | src/kernel/thread.c:293-306 | the idle thread and an empty queue, or, exactly when the heap cannot grant its blocks, an error with heap and id counter as before |
| Numerals.NumeralDenotes | src/lib/printf.c:292-298 | the digits denote the value modulo base^room |
| Numerals.NumeralIsTight | src/lib/printf.c:292-298 | when they fit, the leading digit of a nonzero value is nonzero and no fewer digits would do |
| Numerals.FitsBuffer | src/lib/printf.c:281-326 | 32 digits hold every 32-bit value in any base and every 64-bit value in any base but 2 and 3 |
| Numerals.WriteDigits | src/lib/printf.c:292-298 | the digit loop, also that of `_ntoa_long_long`, leaves the reversed numeral, cut off after 32 digits, in the buffer |
| Numerals.Atoi | src/lib/printf.c:188-195 | the value of the run of digits modulo 2^32, and where the run stops |
| Numerals.AtoiReadsNumeral | src/lib/printf.c:188-195 | for every 32-bit value in base 10 before a non-digit, `_atoi` returns the value and stops exactly there |
| Ntoa.Pad | src/lib/printf.c:229-240 | the buffer holds the digits under their leading zeros, with a place kept for the sign |
| Ntoa.Hash | src/lib/printf.c:243-261 | the buffer holds the digits with what `#` strips and adds |
| Ntoa.Sign | src/lib/printf.c:264-274 | the buffer holds the sign too, if it has room |
| Ntoa.OutRev | src/lib/printf.c:199-223 | the buffer is put out backwards, with spaces on the side the flags say |
| Ntoa.NtoaLong | src/lib/printf.c:281-326 | a number's text is appended to the output, with no write past the 32-byte buffer |
| NtoaLaws.ReadsBack | src/lib/printf.c:227-326 | without `#`, for every number, base, width, precision and flags: the text read back is the signed value modulo base^32 if and only if it is not a nonzero negative one whose padded digits fill the buffer |
| NtoaLaws.WordReadsBack | src/lib/printf.c:281-301 | every 32-bit value in a field and precision of at most 31 reads back whole |
| NtoaLaws.HashRule | src/lib/printf.c:243-249 | the digit part of a nonzero unsigned value without precision still denotes it if and only if nothing is stripped or leading zeros supplied what is (2 in base 16, 1 in bases 8 and 2) |
| NtoaLaws.HashReadsBack | src/lib/printf.c:243-261 | when its prefix fits, such a text read by its own prefix gives the value under exactly the same condition |
| NtoaLaws.TextLength | src/lib/printf.c:199-277 | without `#` the text is exactly as long as the larger of the field and the padded, signed digits, or 32 when zeros have to fill a wider field |
| NtoaLaws.FieldFilled | src/lib/printf.c:199-277 | the text fills its field if and only if zeros need not fill more than 32 places |
| NtoaLaws.PrecisionMet | src/lib/printf.c:229-240 | the precision is met if and only if the digits suffice anyway, or there is no `-` and it is at most 32 |
| NtoaStandard.AskedFilledIs | src/lib/printf.c:684-756 | what ISO C99 asks for is the number's digits, all of them, under a number of leading zeros that flags, width and precision determine |
| NtoaStandard.WholeNumeral | src/lib/printf.c:292-298 | when they fit the buffer, the digits written are all digits of the number |
| NtoaStandard.Letters | src/lib/printf.c:684-714 | the integer letters are d, i, u, o, x, X and b; their bases are 10, 8, 16 and 2 as the standard has it; d and i are signed |
| NtoaConforms.PlainCase | src/lib/printf.c:227-326 | without an effect of `#`: the code prints ISO C99's text if and only if all digits and the sign fit 32 characters, `-` hides no precision, and no octal zero is due (a dropped space can be put back by padding) |
| NtoaConforms.AlternateCase | src/lib/printf.c:243-261 | with an effect of `#`, with or without precision: if and only if the prefix fits, nothing is stripped that should stay, `-` hides no precision, and no zero too many is added |
| NtoaConforms.IntegerIsStandard | src/lib/printf.c:614-756 | for every integer directive, with any flags, stars, length and arguments, the text printed is the one that ISO C99 asks for if and only if the condition holds; it covers a negative precision argument, octal zeros and numbers of more than 32 digits |
| Deviations.MallocWraps | src/kernel/heap.c:117 | a request for 2^32 - 1 bytes is granted a block of none |
| Deviations.SignLost | src/lib/printf.c:264-274 | `%.32d` of -1 does not read back as -1 |
| Deviations.DigitsStripped | src/lib/printf.c:244-249 | `%#2x` of 0x12 prints `0x` |
| Deviations.PrecisionLost | src/lib/printf.c:230-240 | `%-.5d` of 7 prints `7` |
| Deviations.FieldShort | src/lib/printf.c:237-239 | `%040d` of 7 prints 32 characters |
| Deviations.NegativePrecisionOfZero | src/lib/printf.c:639-641 | `%.*d` of 0 with -1 prints nothing, where ISO C99 asks for `0` |
| Deviations.NegativePrecisionOfField | src/lib/printf.c:639-641 | `%0*.*d` of 42 with 5 and -1 prints spaces, where zeros are asked for |
| Deviations.OctalZeroLost | src/lib/printf.c:286-288 | `%#.0o` of 0 prints nothing, where `0` is asked for |
| Deviations.BinaryCut | src/lib/printf.c:317-323 | `%llb` of 2^32 loses its leading digit |
| Sinks.Sink.Out | src/lib/printf.c:133-166 | a character goes to its place in the buffer if that is below `maxlen`, or to the end of the stream if it is no NUL, or nowhere; so the buffer keeps the first `maxlen` characters put out and the stream all but NULs |
| Sinks.Sink.Terminate | src/lib/printf.c:853 | the NUL goes behind the output or into the last place; a count of 0 writes nothing |
| Sinks.NonNulPasses | src/lib/printf.c:149-166 | a stream gets every character but NULs, as often as it was put out and in order |
| Printf.EvaluateFlags | src/lib/printf.c:601-612 | the loop reads the longest run of flag characters |
| Printf.EvaluateWidth | src/lib/printf.c:614-629 | the width of the directive; a negative argument turns the field to the left |
| Printf.EvaluatePrecision | src/lib/printf.c:631-644 | the precision of the directive; a negative argument counts as zero |
| Printf.StrnLen | src/lib/printf.c:171-176 | the shorter of the string and the limit |
| Printf.PrintInteger | src/lib/printf.c:684-756 | the text of the argument, narrowed by its length, with the flags the specifier adjusts |
| Printf.PrintString | src/lib/printf.c:796-820 | the string cut to its precision, in its field |
| Printf.EvaluateDirective | src/lib/printf.c:600-850 | one directive puts out its text and takes its arguments |
| Printf.Vsnprintf | src/lib/printf.c:577-857 | for every well-formed format and its arguments, the complete output goes to the output function and its length is returned, whatever the function, the buffer and the limit |
| Printf.Snprintf | src/lib/printf.c:883-903 | the buffer holds the first min(count - 1, n) characters, a NUL, and what it held behind; count 0 stores nothing; the result is the full length in every case, null buffer included |
| Printf.Sprintf | src/lib/printf.c:873-880 | the buffer holds the whole output and a NUL |
| Printf.Printf | src/lib/printf.c:862-870 | the stream gets every character but NULs; `vprintf_` and `fctprintf` do the same |
| FormatLaws.DirectiveRead | src/lib/printf.c:600-682 | every directive in writing, wherever it stands in a format, is read back as it was meant |
| FormatLaws.PrintedIntegerReadsBack | src/lib/printf.c:614-756 | a format of one integer directive without `#`, stars included, prints text that reads back as its 32-bit or 64-bit argument, narrowed by its length, if and only if the digits fit and, for a negative one, precision or zeros leave room for the sign |
| FormatLaws.PrintedInside | src/lib/printf.c:586-850 | a whole format prints the same wherever it stands in another, which then goes on with the arguments that are left |
| FormatLaws.FormatsCompose | src/lib/printf.c:586-850 | the output of two formats written one after the other is their outputs one after the other |
| DirectiveLaws.PlainPrinted | src/lib/printf.c:586-598 | text without `%` prints itself and takes no argument |
| DirectiveLaws.PercentPrinted | src/lib/printf.c:840-843 | `%%` prints one `%` and takes no argument |
| DirectiveLaws.TextAround | src/lib/printf.c:586-598 | plain text before and after any format stands unchanged around what the format prints |
| DirectiveLaws.CountTaken | src/lib/printf.c:619-642 | a star takes a word as an `int` in two's complement |
| DirectiveLaws.FieldTaken | src/lib/printf.c:614-644 | where width, precision and the side of the field come from: width before precision, a negative width to the left, a negative precision to 0 |
| DirectiveLaws.IntegerTaken | src/lib/printf.c:722-753 | an integer conversion takes 64 bits for `ll` and `j` and a word otherwise; its value is the argument modulo 2^8, 2^16, 2^32 or 2^64, in the range of the signed or unsigned length |
| DirectiveLaws.StringShown | src/lib/printf.c:796-820 | `%s`: the first characters of the string, as many as the precision allows, at the end of a field as wide as asked, or at its beginning with `-`, and spaces elsewhere |
| DirectiveLaws.CharShown | src/lib/printf.c:776-794 | `%c`: the character of the low byte, placed in the same way |
| DirectiveLaws.LetterShown | src/lib/printf.c:840-848 | any letter that is no conversion prints itself and takes no argument but its stars |
| DirectiveLaws.PointerShown | src/lib/printf.c:822-838 | `%p` without `#`: the upper-case hexadecimal digits of the address in eight places, sign included, or as many as the precision says; `-` fills with spaces instead of zeros |
| DirectiveLaws.PointerAlternate | src/lib/printf.c:822-838 | `%#p` prints what `%#08X` should if and only if the address is below 2^24, or 2^28 with `-` |
| DirectiveLaws.EachLetter | src/lib/printf.c:684-714 | 171 by each integer letter, as a whole format |
| FormatLaws.TruncationIsPrefix | src/lib/printf.c:133-138 | a longer buffer stores an extension of what a shorter one stores, and both store prefixes of the output |
| FormatLaws.CompleteIff | src/lib/printf.h:76-87 | the output was stored whole if and only if the returned length is less than count |

## Left out

- Floating point (`_ftoa`, `_etoa`): `%f`, `%e`, `%g` and their capitals make a format not well formed here; reals are not IEEE doubles.
- Formats that end inside a directive: the code steps past the NUL (`src/lib/printf.c:845-848`), so they are not well formed here.
- The most negative `int`, `long` and `long long` as arguments of `%d`, of a width or of a precision: negating them is undefined in C.
- Printf.Vsnprintf: excludes outputs of 2^31 characters or more, whose length does not fit the `int` result; the output index is a natural number that does not wrap.
- The mechanics of variadic arguments: arguments are a typed sequence, a word, a 64-bit value or a string for each directive.
- Printf.StrnLen: strings end with their NUL; the one character that the code reads beyond a limited, unterminated string is not modelled.
- Length fields: `t` and `z` are `long` and `j` is `long long`, as on i386; `char` is signed there.
- Preemption and the reclaiming of exited threads: the code has neither. A finished thread's struct and stack stay allocated.
- Kernel.Threads.Reschedule: the branch that requeues a ready thread is dead for its only caller; it is modelled in `Scheduler.Reschedule`.
- Kernel.Threads.RunQueuePop: `no_threads` is a natural number, equal to the length of the queue; it cannot wrap in an address space that holds the threads.
- Kernel.Threads.AllocThread: this and all thread results are for a heap with merge overhead 12. With 16, undoing a failed creation restores the heap exactly when the first allocation did not split (`HeapDrift.LiteralFreeUndoesMalloc`).
- HeapMemory.Heap.HeapMalloc: requires room for the header it splits off. A tiled heap always has it; a heap that drifted under overhead 16 may not, and then memory no longer holds a heap (`HeapMemory.SplitOverHeadWrites` works out one such write).
- HeapMemory.Heap.HeapFree: the pointer is NULL or a live block's payload; the source asks as much of its callers.
- HeapMemory.Heap.constructor: the arena lies below 2^32 - 1 and clear of the list head, as linked static data do.
- Machine.Cpu.IsrMain: what a handler writes outside its registers and stack (the tick count) is not in the modelled memory; the interrupt controller's ports are recorded as effects only.
- Machine.IrqTable.Register: requires one of the 16 lines; the source's assertion compares with the table's size in bytes.
- Machine.Cpu.Boundary: `eip` counts instructions, since encodings are not modelled; segment registers beyond `cs` are not part of this model.
- CPU exceptions: their handlers all panic and do not return.
- Descriptor tables, boot code, device drivers (`uart.c`, `i8254.c`, `i8259.c`) and port I/O: constants and register writes with little state.
