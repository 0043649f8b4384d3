/** `src/kernel/thread.c` on one memory: structs and stacks from the heap, the run queue
    threaded through the structs, and the CPU switching between the stacks.  Every operation
    takes the step of `Scheduler` and keeps all suspended threads intact. */
module Kernel {
  import opened Words
  import opened HeapSpec
  import opened HeapTiling
  import opened HeapHistory
  import opened IntrusiveList
  import opened HeapMemory
  import opened ThreadState
  import opened Machine
  import Scheduler

  class Threads {
    const mem: array<Word>
    const heap: Heap
    const cpu: Cpu
    const runQueue: Word     // &thread_run_queue.thread_list
    const threadMain: Word   // the address of thread_main
    var noThreads: nat
    var idle: Word
    var current: Word        // NULL before the scheduler starts
    var nextId: Word
    ghost var sched: Scheduler.Sched
    ghost var ts: map<nat, Thread>

    constructor (memory: array<Word>, h: Heap, c: Cpu, queueHead: Word, mainEntry: Word)
      ensures mem == memory && heap == h && cpu == c && runQueue == queueHead && threadMain == mainEntry
      ensures noThreads == 0 && idle == NULL && current == NULL && nextId == 0 && ts == map[]
    {
      mem, heap, cpu, runQueue, threadMain := memory, h, c, queueHead, mainEntry;
      noThreads, idle, current, nextId := 0, NULL, NULL, 0;
      sched, ts := Scheduler.Initial(0), map[];
    }

    /** The parts share one memory, the heap is sound, and the queue's head is out of its way. */
    ghost predicate Wired()
      reads this, heap, mem
    {
      && heap.mem == mem && cpu.mem == mem && cpu.irqs.Valid()
      && heap.Valid() && heap.Sound() && heap.overhead == HEADER
      && QueueHeadFits(mem.Length, runQueue, heap.head, heap.lo, heap.hi)
    }

    ghost predicate Valid()
      reads this, heap, mem, cpu
    {
      && Wired()
      && Owned(heap.st, ts) && ThreadsHold(mem[..], runQueue, ts, sched, threadMain)
      && Scheduler.Inv(sched) && noThreads == sched.count && idle == sched.idle
      && Running(ts, sched.current)
    }

    lemma {:induction false} Assemble()
      requires Wired() && Owned(heap.st, ts) && ThreadsHold(mem[..], runQueue, ts, sched, threadMain)
      requires Scheduler.Inv(sched) && noThreads == sched.count && idle == sched.idle && Running(ts, sched.current)
      ensures Valid()
    {
    }

    /** The current thread is the scheduler's, and the CPU is on its stack. */
    ghost predicate Running(ts: map<nat, Thread>, c: Option<nat>)
      reads this`current, cpu
    {
      match c
      case None => current == NULL
      case Some(t) => current == t && t in ts && OnStack(cpu.esp, ts[t])
    }

    ghost predicate OnStack(sp: int, th: Thread) {
      sp % 4 == 0 && th.Lo() <= sp <= th.Top()
    }

    // ---------- Creating threads ----------

    /** `thread_setup_stack`, for any aligned stack of at least 32 bytes. */
    method SetupStack(base: Word, size: Word, fn: Word, arg: Word, stackPtr: Word)
      requires base % 4 == 0 && size % 4 == 0 && INITIAL_FRAME <= size && base + size <= mem.Length <= WRAP
      requires stackPtr < mem.Length && !(base <= stackPtr < base + size)
      modifies mem
      ensures EntryFrame(mem[..], base + size - INITIAL_FRAME, threadMain, fn, arg)
      ensures mem[stackPtr] == base + size - INITIAL_FRAME
      ensures forall a :: 0 <= a < mem.Length && a != stackPtr && !(base + size - INITIAL_FRAME <= a < base + size) ==> mem[a] == old(mem[a])
    {
      var top := base + size;
      mem[top - 4] := arg;
      mem[top - 8] := fn;
      mem[top - 12] := 0;
      mem[top - 16] := threadMain;
      mem[top - 20] := 0;
      mem[top - 24] := 0;
      mem[top - 28] := 0;
      mem[top - 32] := 0;
      mem[stackPtr] := top - 32;
    }

    /** The fields of the struct but the stack pointer. */
    method FillStruct(thread: Word, name: Word)
      requires thread + THREAD_BYTES <= mem.Length
      modifies mem, this`nextId
      ensures mem[thread + READY] == 1 && Labelled(mem[..], thread, old(nextId), name)
      ensures mem[thread + NODE] == NULL && mem[thread + NODE + 4] == NULL
      ensures nextId == Mod32(old(nextId) + 1)
      ensures SameOutside(old(mem[..]), mem[..], thread, thread + THREAD_BYTES)
    {
      mem[thread + ID] := nextId;
      nextId := Mod32(nextId + 1);
      mem[thread + 4] := name;
      mem[thread + READY] := 1;
      mem[thread + NODE] := NULL;
      mem[thread + NODE + 4] := NULL;
      mem[thread + STACK_SIZE] := THREAD_DEFAULT_STACK_SIZE;
    }

    /** `thread_struct_init`. */
    method StructInit(thread: Word, name: Word, fn: Word, arg: Word, stack: Word, ghost th: Thread)
      requires thread == th.Id() && stack == th.Lo() && th.fn == fn && th.arg == arg
      requires th.Id() + THREAD_BYTES <= mem.Length <= WRAP && th.Top() <= mem.Length && stack % 4 == 0
      requires th.Id() + THREAD_BYTES <= th.Lo() || th.Top() <= th.Id()
      modifies mem, this`nextId
      ensures InitialFrame(mem[..], th, threadMain) && mem[thread + READY] == 1
      ensures Labelled(mem[..], thread, old(nextId), name)
      ensures mem[thread + NODE] == NULL && mem[thread + NODE + 4] == NULL
      ensures nextId == Mod32(old(nextId) + 1)
      ensures forall a :: 0 <= a < mem.Length && !(thread <= a < thread + THREAD_BYTES) && !(th.Lo() <= a < th.Top()) ==> mem[a] == old(mem[a])
    {
      FillStruct(thread, name);
      SetupStack(stack, THREAD_DEFAULT_STACK_SIZE, fn, arg, thread + STACK_PTR);
    }

    /** A heap call, with what it keeps. */
    method Malloc(n: Word) returns (ptr: Word, ghost b: Block)
      requires Wired() && n <= WRAP - 4 && 0 < n
      modifies heap`st, mem
      ensures Wired()
      ensures ptr == NULL ==> heap.st == old(heap.st) && mem[..] == old(mem[..]) && HeapSpec.Malloc(heap.st, n).0.None?
      ensures ptr != NULL ==> Vended(old(heap.st), heap.st, n, b) && ptr == b.Payload()
      ensures Kept(old(mem[..]), mem[..], old(heap.st.live), heap.head, heap.lo, heap.hi)
    {
      ghost var s := heap.st;
      MallocHasRoom(n);
      FirstFitVends(s, n, heap.lo, heap.hi);
      ptr := heap.HeapMalloc(n);
      match HeapSpec.Malloc(s, n).0 {
        case None => b := Block(0, 0);
        case Some(v) =>
          b := v;
          VendedIsNew(s, n, heap.lo, heap.hi);
      }
    }

    ghost predicate Vended(s: HeapState, t: HeapState, n: Word, b: Block) {
      HeapSpec.Malloc(s, n) == (Some(b), t) && b !in s.live && t.live == s.live + {b} && n <= b.size
    }

    /** The heap can grant 28 bytes for a struct and then 4096 for a stack. */
    ghost predicate HasTwo(s: HeapState) {
      HeapSpec.Malloc(s, 28).0.Some? && HeapSpec.Malloc(HeapSpec.Malloc(s, 28).1, 4096).0.Some?
    }

    /** The heap once it has. */
    ghost function WithThread(s: HeapState): HeapState {
      HeapSpec.Malloc(HeapSpec.Malloc(s, 28).1, 4096).1
    }

    /** The allocations of `thread_create` and `idle_thread_create`, undone when the second
        fails: then the heap is exactly as before. */
    method AllocThread(name: Word, fn: Word, arg: Word) returns (thread: Word, ghost th: Thread)
      requires Wired()
      modifies heap`st, mem, this`nextId
      ensures Wired()
      ensures thread == NULL <==> !HasTwo(old(heap.st))
      ensures thread == NULL ==> heap.st == old(heap.st) && nextId == old(nextId)
      ensures thread != NULL ==>
                && thread == th.Id() && th.fn == fn && th.arg == arg
                && Owns(heap.st, th) && th.tcb !in old(heap.st.live) && th.stack !in old(heap.st.live)
                && heap.st.live == old(heap.st.live) + {th.tcb, th.stack}
                && InitialFrame(mem[..], th, threadMain) && mem[thread + READY] == 1
                && Labelled(mem[..], thread, old(nextId), name)
                && heap.st == WithThread(old(heap.st))
                && nextId == Mod32(old(nextId) + 1)
      ensures Kept(old(mem[..]), mem[..], old(heap.st.live), heap.head, heap.lo, heap.hi)
    {
      hide Kept, InitialFrame, Compact, Represents, HeapSpec.Malloc;
      ghost var m0, s0 := mem[..], heap.st;
      ghost var tcb, stackBlk;
      var stack := NULL;
      th := Thread(Block(0, 0), Block(0, 0), fn, arg);
      thread, tcb := Malloc(THREAD_BYTES);
      ghost var m1, s1 := mem[..], heap.st;
      if thread != NULL {
        stack, stackBlk := Malloc(THREAD_DEFAULT_STACK_SIZE);
        KeptTrans(m0, m1, mem[..], s0.live, s1.live, heap.head, heap.lo, heap.hi);
      }
      ghost var m2 := mem[..];
      if thread == NULL || stack == NULL {
        if thread != NULL { FreeUndoesMalloc(s0, THREAD_BYTES, heap.lo, heap.hi); }
        heap.HeapFree(thread, tcb);
        KeptTrans(m0, m2, mem[..], s0.live, s0.live, heap.head, heap.lo, heap.hi);
        heap.HeapFree(stack, tcb);
        thread := NULL;
      } else {
        th := Thread(tcb, stackBlk, fn, arg);
        InitThread(name, fn, arg, thread, stack, th, s0.live);
        KeptTrans(m0, m2, mem[..], s0.live, s0.live, heap.head, heap.lo, heap.hi);
      }
    }

    method InitThread(name: Word, fn: Word, arg: Word, thread: Word, stack: Word, ghost th: Thread, ghost live: set<Block>)
      requires Wired() && Owns(heap.st, th) && thread == th.Id() && stack == th.Lo() && th.fn == fn && th.arg == arg
      requires live <= heap.st.live && th.tcb !in live && th.stack !in live
      modifies mem, this`nextId
      ensures Wired()
      ensures InitialFrame(mem[..], th, threadMain) && mem[thread + READY] == 1
      ensures Labelled(mem[..], thread, old(nextId), name)
      ensures nextId == Mod32(old(nextId) + 1)
      ensures Kept(old(mem[..]), mem[..], live, heap.head, heap.lo, heap.hi)
    {
      ghost var m := mem[..];
      NewThreadFits(heap.st, heap.lo, heap.hi, th);
      StructInit(thread, name, fn, arg, stack, th);
      BlocksKeepHeap(m, mem[..], heap.head, heap.st, heap.lo, heap.hi, th, th);
      NewBlocksKept(m, mem[..], heap.st, live, heap.head, heap.lo, heap.hi, th);
    }

    /** `thread_run_queue_add`. */
    method RunQueueAdd(thread: Word)
      requires Wired() && Owned(heap.st, ts) && thread in ts && thread !in sched.queue
      requires Linked(mem[..], QueueRing(runQueue, sched.queue)) && forall t :: t in sched.queue ==> t in ts
      modifies mem, this`noThreads
      ensures Wired() && noThreads == old(noThreads) + 1
      ensures Linked(mem[..], QueueRing(runQueue, sched.queue + [thread as nat]))
      ensures LinksOnly(old(mem[..]), mem[..], runQueue, ts)
    {
      hide Compact, Represents, QueueHeadFits;
      ghost var m, q := mem[..], sched.queue;
      ghost var ring := QueueRing(runQueue, q);
      NodeApart(m, heap.st, runQueue, heap.head, heap.lo, heap.hi, ts, q, thread);
      NewThreadFits(heap.st, heap.lo, heap.hi, ts[thread]);
      ListAddTail(mem, thread + NODE, runQueue, ring);
      noThreads := noThreads + 1;
      QueuedNodes(runQueue, ts, q, |q|);
      RelinkLinks(m, mem[..], runQueue, ts, thread + NODE, ring[|q|], runQueue);
      LinksKeepHeap(m, mem[..], heap.head, heap.st, heap.lo, heap.hi, runQueue, ts);
      RingAppend(runQueue, q, thread);
    }

    /** The heap and memory are ready for `th` to join the threads of heap state `h`. */
    ghost predicate Joinable(th: Thread, h: HeapState)
      reads this, heap, mem
    {
      && Wired() && Owned(h, ts) && ThreadsHold(mem[..], runQueue, ts, sched, threadMain)
      && heap.st.live == h.live + {th.tcb, th.stack} && Owns(heap.st, th) && th.tcb !in h.live && th.stack !in h.live
      && InitialFrame(mem[..], th, threadMain) && mem[th.Id() + READY] == 1
    }

    /** The allocations of a thread beside those that exist. */
    method AllocBeside(name: Word, fn: Word, arg: Word) returns (thread: Word, ghost th: Thread)
      requires Valid()
      modifies heap`st, mem, this`nextId
      ensures thread == NULL <==> !HasTwo(old(heap.st))
      ensures thread == NULL ==> Valid() && heap.st == old(heap.st) && nextId == old(nextId)
      ensures thread != NULL ==> heap.st == WithThread(old(heap.st))
      ensures thread != NULL ==> Joinable(th, old(heap.st)) && thread == th.Id() && th.fn == fn && th.arg == arg
      ensures thread != NULL ==> nextId == Mod32(old(nextId) + 1) && Labelled(mem[..], thread, old(nextId), name)
    {
      hide Kept, InitialFrame, ThreadsHold, Scheduler.Inv, Owned, HasTwo, WithThread;
      ghost var m, h := mem[..], heap.st;
      thread, th := AllocThread(name, fn, arg);
      HeapKeepsThreads(m, mem[..], h, runQueue, heap.head, heap.lo, heap.hi, ts, sched, threadMain);
    }

    /** The tail of `thread_create`: the initialised thread joins the queue. */
    method Enqueue(thread: Word, ghost th: Thread, ghost h: HeapState)
      requires Joinable(th, h) && thread == th.Id() && thread != NULL
      requires Scheduler.Inv(sched) && noThreads == sched.count && idle == sched.idle && Running(ts, sched.current)
      modifies this`noThreads, this`sched, this`ts, mem
      ensures Valid()
      ensures th.Id() !in old(ts) && ts == old(ts)[th.Id() := th]
      ensures Created(old(sched), sched, thread)
      ensures LinksOnly(old(mem[..]), mem[..], runQueue, ts)
    {
      hide ThreadsHold, Owned, Wired, Joinable, Scheduler.Inv;
      ghost var s := sched;
      CreateEnabled(th, h);
      Join(thread, th, h);
      Scheduler.CreateKeeps(s, thread);
      sched := Scheduler.Step(s, Scheduler.Create(thread));
      Assemble();
    }

    lemma {:induction false} CreateEnabled(th: Thread, h: HeapState)
      requires Joinable(th, h) && Scheduler.Inv(sched)
      ensures th.Id() !in ts && Scheduler.Enabled(sched, Scheduler.Create(th.Id()))
    {
      JoinOwned(h, heap.st, heap.lo, heap.hi, ts, th);
    }

    method Join(thread: Word, ghost th: Thread, ghost h: HeapState)
      requires Joinable(th, h) && thread == th.Id() && Scheduler.Enabled(sched, Scheduler.Create(thread)) && th.Id() !in ts
      modifies this`noThreads, this`ts, mem
      ensures ts == old(ts)[th.Id() := th] && noThreads == old(noThreads) + 1
      ensures Wired() && Owned(heap.st, ts) && LinksOnly(old(mem[..]), mem[..], runQueue, ts)
      ensures ThreadsHold(mem[..], runQueue, ts, Scheduler.Step(sched, Scheduler.Create(thread)), threadMain)
    {
      ghost var m, ts0 := mem[..], ts;
      JoinOwned(h, heap.st, heap.lo, heap.hi, ts, th);
      ts := ts[th.Id() := th];
      RunQueueAdd(thread);
      CreatedHolds(m, mem[..], heap.st, runQueue, heap.head, heap.lo, heap.hi, ts0, th, sched, threadMain);
    }

    ghost predicate Created(s: Scheduler.Sched, s': Scheduler.Sched, t: nat) {
      Scheduler.Inv(s) && Scheduler.Enabled(s, Scheduler.Create(t)) && s' == Scheduler.Step(s, Scheduler.Create(t)) && Scheduler.Inv(s')
    }

    /** `thread_create`: all or nothing.  On success the new thread owns two blocks that no
        other thread has (Owned, part of Valid), is ready and last in the queue; on failure
        the heap, the queue, the threads and the id counter are as before. */
    method ThreadCreate(name: Word, fn: Word, arg: Word) returns (error: bool, thread: Word)
      requires Valid()
      modifies this`noThreads, this`nextId, this`sched, this`ts, heap`st, mem
      ensures Valid()
      ensures error <==> !HasTwo(old(heap.st))
      ensures error ==> heap.st == old(heap.st) && sched == old(sched) && ts == old(ts) && nextId == old(nextId)
      ensures !error ==> heap.st == WithThread(old(heap.st))
      ensures !error ==> NewThread(old(ts), ts, thread, fn, arg) && Created(old(sched), sched, thread)
      ensures !error ==> nextId == Mod32(old(nextId) + 1) && Labelled(mem[..], thread, old(nextId), name)
    {
      hide Wired, ThreadsHold, Owned, Scheduler.Inv, Joinable, Labelled, HasTwo, WithThread;
      ghost var h, th := heap.st, Thread(Block(0, 0), Block(0, 0), fn, arg);
      thread, th := AllocBeside(name, fn, arg);
      error := thread == NULL;
      if !error {
        ghost var m := mem[..];
        Enqueue(thread, th, h);
        LabelKept(m, thread, old(nextId), name);
      }
    }

    lemma {:induction false} LabelKept(m: seq<Word>, t: nat, id: Word, name: Word)
      requires Valid() && t in ts && LinksOnly(m, mem[..], runQueue, ts) && Labelled(m, t, id, name)
      ensures Labelled(mem[..], t, id, name)
    {
      hide ThreadsHold, Scheduler.Inv, Represents, Compact;
      LinksKeepLabel(m, mem[..], heap.st, heap.lo, heap.hi, runQueue, heap.head, ts, t, id, name);
    }

    ghost predicate NewThread(ts0: map<nat, Thread>, ts1: map<nat, Thread>, t: nat, fn: Word, arg: Word) {
      t !in ts0 && t in ts1 && ts1 == ts0[t := ts1[t]] && ts1[t].fn == fn && ts1[t].arg == arg
    }

    // ---------- Scheduling ----------

    /** `thread_run_queue_pop`, whose assertion is the precondition on the queue. */
    method RunQueuePop() returns (thread: Word)
      requires Wired() && Owned(heap.st, ts) && noThreads == |sched.queue| && sched.queue != []
      requires Linked(mem[..], QueueRing(runQueue, sched.queue)) && forall t :: t in sched.queue ==> t in ts
      modifies mem, this`noThreads
      ensures thread == sched.queue[0] && noThreads == old(noThreads) - 1
      ensures Wired() && Linked(mem[..], QueueRing(runQueue, sched.queue[1..]))
      ensures LinksOnly(old(mem[..]), mem[..], runQueue, ts)
    {
      hide Compact, Represents, Owned, LinksOnly, QueueHeadFits;
      ghost var m, q := mem[..], sched.queue;
      ghost var ring := QueueRing(runQueue, q);
      assert Edge(m, ring[0], Succ(ring, 0));
      var node := mem[runQueue];
      thread := node - NODE;
      ListDel(mem, node, ring, 1);
      noThreads := noThreads - 1;
      PoppedLinks(m, mem[..], heap.head, heap.st, heap.lo, heap.hi, runQueue, ts, q);
    }

    /** `thread_get_next`. */
    method GetNext() returns (next: Word)
      requires Wired() && Owned(heap.st, ts) && ThreadsHold(mem[..], runQueue, ts, sched, threadMain)
      requires noThreads == sched.count == |sched.queue| && idle == sched.idle
      modifies mem, this`noThreads
      ensures next == Scheduler.GetNext(sched).0 && noThreads == Scheduler.GetNext(sched).1.count
      ensures Wired() && PoppedHold(mem[..], runQueue, ts, sched, Scheduler.GetNext(sched).1.queue, threadMain)
    {
      ghost var m := mem[..];
      if noThreads == 0 {
        next := idle;
      } else {
        next := RunQueuePop();
        forall t | t in ts ensures ThreadHolds(mem[..], ts[t], sched, threadMain) {
          LinksKeepThread(m, mem[..], heap.st, heap.lo, heap.hi, runQueue, heap.head, ts, t, sched, sched, threadMain);
        }
      }
    }

    /** Room on the current stack for a call with two arguments, a switch and an IRQ. */
    ghost predicate RoomToSwitch(th: Thread)
      reads cpu
    {
      cpu.esp % 4 == 0 && th.Lo() + IRQ_BYTES + SAVED_BYTES + 12 <= cpu.esp <= th.Top()
    }

    /** IRQs after the instructions of a switch, each handler staying on the stack in use. */
    ghost predicate SwitchIrqs(qs: seq<seq<Irq>>, from: Thread, next: Thread) {
      |qs| == 12 && forall i :: 0 <= i < 12 ==> AreIrqs(qs[i], if i < 7 then from.Lo() else next.Lo())
    }

    /** `thread_context_switch` to a thread that waits for its first dispatch, with any IRQs
        on the way: it enters `thread_main` with the thread's function and argument. */
    method ContextSwitch(from: Word, next: Word, qs: seq<seq<Irq>>, returnTo: Word)
      requires Wired() && Owned(heap.st, ts) && from in ts && next in ts && from != next
      requires RoomToSwitch(ts[from]) && InitialFrame(mem[..], ts[next], threadMain) && SwitchIrqs(qs, ts[from], ts[next])
      modifies mem, cpu, cpu.irqs`calls
      ensures Wired() && TookOver(old(mem[..]), mem[..], ts[from], ts[next], cpu.Now(), threadMain)
    {
      ghost var m, c, d := mem[..], ts[from], ts[next];
      assert NoShare(c, d);
      CallSwitch(from, next, returnTo);
      ghost var m1, r := mem[..], cpu.Now();
      cpu.ThreadContextSwitchAsm(qs, c.Lo(), d.Lo());
      SwitchTakesOver(m, m1, mem[..], heap.head, heap.st, heap.lo, heap.hi, c, d, r, cpu.Now(), threadMain);
    }

    /** The call of `thread_context_switch_asm`, up to its first instruction. */
    method CallSwitch(from: Word, next: Word, returnTo: Word)
      requires Wired() && Owned(heap.st, ts) && from in ts && next in ts && NoShare(ts[from], ts[next])
      requires RoomToSwitch(ts[from]) && InitialFrame(mem[..], ts[next], threadMain)
      modifies mem, cpu
      ensures cpu.Room(ts[from].Lo(), IRQ_BYTES + SAVED_BYTES)
      ensures Called(old(mem[..]), mem[..], ts[from], ts[next], cpu.Now(), threadMain)
      ensures SwitchSafe(cpu.Now(), mem[..], ts[from].Lo(), ts[next].Lo())
    {
      hide Compact, Represents, Called, SwitchSafe, PrivateOnly;
      ghost var m, c, d := mem[..], ts[from], ts[next];
      NewThreadFits(heap.st, heap.lo, heap.hi, c);
      PushCall(mem[next + STACK_PTR], from + STACK_PTR, returnTo, c, d);
      PushedIsCalled(m, mem[..], heap.st, heap.lo, heap.hi, c, d, cpu.Now(), threadMain);
    }

    /** The call sequence: arguments from right to left, then the return address. */
    method PushCall(nextSp: Word, slot: Word, returnTo: Word, ghost c: Thread, ghost d: Thread)
      requires cpu.mem == mem && c.Lo() + 12 <= cpu.esp <= c.Top() <= mem.Length
      modifies mem, cpu
      ensures cpu.esp == old(cpu.esp) - 12
      ensures mem[cpu.esp] == returnTo && mem[cpu.esp + 4] == slot && mem[cpu.esp + 8] == nextSp
      ensures SameOutside(old(mem[..]), mem[..], cpu.esp, old(cpu.esp))
    {
      cpu.Push(nextSp);
      cpu.Push(slot);
      cpu.Push(returnTo);
    }

    /** The end of `thread_main`, once the thread's function has returned: the ready flag is
        cleared and `thread_reschedule` switches to the next thread, with any IRQs on the way.
        The next thread enters `thread_main` with its own function and argument on its own
        stack. */
    method FinishThread(qs: seq<seq<Irq>>, returnTo: Word)
      requires Valid() && Scheduler.Enabled(sched, Scheduler.Finish) && RoomToSwitch(ts[current])
      requires SwitchIrqs(qs, ts[current], NextThread())
      modifies this`noThreads, this`current, this`sched, mem, cpu, cpu.irqs`calls
      ensures Valid() && Finished(old(sched), sched)
      ensures current != old(current)
      ensures EntersMain(cpu.Now(), mem[..], threadMain, ts[current].fn, ts[current].arg)
    {
      ghost var s := sched;
      ClearReady();
      Reschedule(qs, returnTo, s);
      Scheduler.FinishKeeps(s);
      Assemble();
    }

    /** The thread that `thread_get_next` would pick. */
    ghost function NextThread(): Thread
      requires Valid()
      reads this, heap, mem, cpu
    {
      ts[Scheduler.GetNext(sched).0]
    }

    ghost predicate Finished(s: Scheduler.Sched, s': Scheduler.Sched) {
      Scheduler.Inv(s) && Scheduler.Enabled(s, Scheduler.Finish) && s' == Scheduler.Step(s, Scheduler.Finish) && Scheduler.Inv(s')
    }

    /** The scheduler's state once the current thread's ready flag is cleared. */
    ghost function Exiting(s: Scheduler.Sched): Scheduler.Sched
      requires s.current.Some?
    {
      s.(ready := s.ready - {s.current.value}, finished := s.finished + [s.current.value])
    }

    /** `current->ready = false`. */
    method ClearReady()
      requires Valid() && Scheduler.Enabled(sched, Scheduler.Finish)
      modifies this`sched, mem
      ensures Wired() && Owned(heap.st, ts) && sched == Exiting(old(sched))
      ensures ThreadsHold(mem[..], runQueue, ts, sched, threadMain)
      ensures mem[current + READY] == 0
    {
      hide Scheduler.Inv, Linked, QueueRing, Compact, Represents, PrivateOnly;
      ghost var m, s, c := mem[..], sched, ts[current];
      NewThreadFits(heap.st, heap.lo, heap.hi, c);
      Scheduler.CurrentNotQueued(s);
      mem[current + READY] := 0;
      ExitedHold(m, mem[..], heap.st, runQueue, heap.head, heap.lo, heap.hi, ts, current, s, Exiting(s), threadMain);
      PrivateKeepsHeap(m, mem[..], heap.head, heap.st, heap.lo, heap.hi, c, c);
      sched := Exiting(s);
    }

    /** `thread_reschedule`, for a caller that is not ready to run again. */
    method Reschedule(qs: seq<seq<Irq>>, returnTo: Word, ghost s: Scheduler.Sched)
      requires Wired() && Owned(heap.st, ts) && ThreadsHold(mem[..], runQueue, ts, sched, threadMain)
      requires Scheduler.Inv(s) && Scheduler.Enabled(s, Scheduler.Finish) && sched == Exiting(s)
      requires noThreads == sched.count && idle == sched.idle && Running(ts, sched.current)
      requires mem[current + READY] == 0 && RoomToSwitch(ts[current])
      requires Scheduler.GetNext(s).0 in ts && SwitchIrqs(qs, ts[current], ts[Scheduler.GetNext(s).0])
      modifies this`noThreads, this`current, this`sched, mem, cpu, cpu.irqs`calls
      ensures Wired() && Owned(heap.st, ts) && sched == Scheduler.Step(s, Scheduler.Finish)
      ensures ThreadsHold(mem[..], runQueue, ts, sched, threadMain)
      ensures noThreads == sched.count && idle == sched.idle && Running(ts, sched.current)
      ensures current != old(current)
      ensures EntersMain(cpu.Now(), mem[..], threadMain, ts[current].fn, ts[current].arg)
    {
      hide Scheduler.Inv, EntersMain, Linked, QueueRing, SwitchIrqs, Dispatches, Compact, Represents, PrivateOnly, InitialFrame;
      ghost var s1 := sched;
      Scheduler.CurrentNotQueued(s);
      var was: Word := current;
      var next: Word := GetNext();
      ghost var m := mem[..];
      assert ThreadHolds(m, ts[was], s1, threadMain);
      current := next;
      if was != idle && mem[was + READY] != 0 {
        assert false;  // thread_run_queue_add: the only caller has cleared the flag
      }
      sched := Scheduler.Step(s, Scheduler.Finish);
      NextIsWaiting(s);
      ContextSwitch(was, next, qs, returnTo);
      SwitchedHold(m, mem[..], heap.st, runQueue, heap.head, heap.lo, heap.hi, ts, was, next, s1, sched, threadMain);
    }

    /** The thread picked is another one, waits for its first dispatch, and waits no more. */
    lemma {:induction false} NextIsWaiting(s: Scheduler.Sched)
      requires Scheduler.Inv(s) && Scheduler.Enabled(s, Scheduler.Finish)
      ensures var c, d, s' := s.current.value, Scheduler.GetNext(s).0, Scheduler.Step(s, Scheduler.Finish);
              && c != d && Unstarted(Exiting(s), d) && Dispatches(Exiting(s), s', d) && !Unstarted(s', c)
              && s'.current == Some(d) && s'.queue == Scheduler.GetNext(s).1.queue && s'.count == Scheduler.GetNext(s).1.count
    {
      hide Scheduler.Inv;
      Scheduler.CurrentNotQueued(s);
      Scheduler.FinishKeeps(s);
      Scheduler.CurrentNotQueued(Scheduler.Step(s, Scheduler.Finish));
    }

    /** `thread_start_scheduler`, on a boot stack clear of everything the kernel keeps. */
    method StartScheduler(qs: seq<seq<Irq>>, returnTo: Word)
      requires Valid() && Scheduler.Enabled(sched, Scheduler.Start)
      requires 8 <= cpu.esp <= mem.Length && cpu.esp % 4 == 0
      requires ClearOf(cpu.esp - 8, cpu.esp, runQueue, heap.head, heap.lo, heap.hi)
      requires |qs| == 5 && forall i :: 0 <= i < 5 ==> AreIrqs(qs[i], NextThread().Lo())
      modifies this`noThreads, this`current, this`sched, mem, cpu, cpu.irqs`calls
      ensures Valid() && Started(old(sched), sched)
      ensures EntersMain(cpu.Now(), mem[..], threadMain, ts[current].fn, ts[current].arg)
    {
      hide Owned, Scheduler.Inv, EntersMain, Dispatches, PoppedHold, ThreadHolds, Linked, QueueRing;
      ghost var s := sched;
      var first: Word := GetNext();
      current := first;
      FirstIsWaiting(s);
      LoadFirst(first, qs, returnTo, s);
      sched := Scheduler.Step(s, Scheduler.Start);
      Assemble();
    }

    ghost predicate Started(s: Scheduler.Sched, s': Scheduler.Sched) {
      Scheduler.Inv(s) && Scheduler.Enabled(s, Scheduler.Start) && s' == Scheduler.Step(s, Scheduler.Start) && Scheduler.Inv(s')
    }

    lemma {:induction false} FirstIsWaiting(s: Scheduler.Sched)
      requires Scheduler.Inv(s) && Scheduler.Enabled(s, Scheduler.Start)
      ensures var d, s' := Scheduler.GetNext(s).0, Scheduler.Step(s, Scheduler.Start);
              && Scheduler.Inv(s') && Unstarted(s, d) && Dispatches(s, s', d)
              && s'.current == Some(d) && s'.queue == Scheduler.GetNext(s).1.queue && s'.count == Scheduler.GetNext(s).1.count
    {
      hide Scheduler.Inv;
      Scheduler.StartKeeps(s);
      Scheduler.CurrentNotQueued(Scheduler.Step(s, Scheduler.Start));
    }

    /** Between the choice of the first thread and its dispatch: `s` before, queue popped. */
    ghost predicate Loading(first: nat, s: Scheduler.Sched)
      reads this, heap, mem
    {
      && Wired() && Owned(heap.st, ts) && first in ts && Scheduler.Enabled(s, Scheduler.Start) && Unstarted(s, first)
      && Dispatches(s, Scheduler.Step(s, Scheduler.Start), first)
      && PoppedHold(mem[..], runQueue, ts, s, Scheduler.Step(s, Scheduler.Start).queue, threadMain)
    }

    /** `thread_load_first`. */
    method LoadFirst(first: Word, qs: seq<seq<Irq>>, returnTo: Word, ghost s: Scheduler.Sched)
      requires Loading(first, s)
      requires 8 <= cpu.esp <= mem.Length && cpu.esp % 4 == 0
      requires ClearOf(cpu.esp - 8, cpu.esp, runQueue, heap.head, heap.lo, heap.hi)
      requires |qs| == 5 && forall i :: 0 <= i < 5 ==> AreIrqs(qs[i], ts[first].Lo())
      modifies mem, cpu, cpu.irqs`calls
      ensures Wired() && ThreadsHold(mem[..], runQueue, ts, Scheduler.Step(s, Scheduler.Start), threadMain)
      ensures EntersMain(cpu.Now(), mem[..], threadMain, ts[first].fn, ts[first].arg) && OnStack(cpu.esp, ts[first])
    {
      hide PoppedHold, Dispatches, EntersMain, ThreadsHold, AreIrqs, Compact, Represents, Scheduler.Step;
      ghost var d, s' := ts[first], Scheduler.Step(s, Scheduler.Start);
      PushLoadCall(first, returnTo, s);
      NewThreadFits(heap.st, heap.lo, heap.hi, d);
      ghost var m1, r := mem[..], cpu.Now();
      cpu.ThreadLoadFirstAsm(qs, d.Lo());
      FirstLoaded(m1, mem[..], heap.st, runQueue, heap.head, heap.lo, heap.hi, ts, first, r, cpu.Now(), s, s', threadMain);
    }

    method PushLoadCall(first: Word, returnTo: Word, ghost s: Scheduler.Sched)
      requires Loading(first, s)
      requires 8 <= cpu.esp <= mem.Length && cpu.esp % 4 == 0
      requires ClearOf(cpu.esp - 8, cpu.esp, runQueue, heap.head, heap.lo, heap.hi)
      modifies mem, cpu
      ensures Loading(first, s) && cpu.esp == old(cpu.esp) - 8
      ensures mem[cpu.esp + 4] == ts[first].Top() - INITIAL_FRAME
    {
      ghost var m, e := mem[..], cpu.esp;
      NewThreadFits(heap.st, heap.lo, heap.hi, ts[first]);
      assert ThreadHolds(m, ts[first], s, threadMain);
      PushTwo(mem[first + STACK_PTR], returnTo);
      ClearWritesHold(m, mem[..], heap.st, runQueue, heap.head, heap.lo, heap.hi, ts, e - 8, e,
                      s, Scheduler.Step(s, Scheduler.Start).queue, threadMain);
    }

    method PushTwo(v: Word, w: Word)
      requires cpu.mem == mem && 8 <= cpu.esp <= mem.Length
      modifies mem, cpu
      ensures cpu.esp == old(cpu.esp) - 8 && mem[cpu.esp + 4] == v && mem[cpu.esp] == w
      ensures SameOutside(old(mem[..]), mem[..], cpu.esp, old(cpu.esp))
    {
      cpu.Push(v);
      cpu.Push(w);
    }

    // ---------- What a thread does between kernel calls ----------

    /** Code of the running thread: any registers, any words of its own stack. */
    method Compute(r: Regs, low: Word, words: seq<Word>)
      requires Valid() && sched.current.Some? && OnStack(r.esp, ts[current])
      requires ts[current].Lo() <= low && low + |words| <= ts[current].Top()
      modifies mem, cpu
      ensures Valid() && cpu.Now() == r
      ensures forall i :: 0 <= i < |words| ==> low + i < mem.Length && mem[low + i] == words[i]
    {
      hide Scheduler.Inv, Linked, QueueRing, Compact, Represents, ThreadHolds;
      ghost var m := mem[..];
      NewThreadFits(heap.st, heap.lo, heap.hi, ts[current]);
      Scheduler.CurrentNotQueued(sched);
      WriteWords(low, words);
      OwnStackHold(m, mem[..], heap.st, runQueue, heap.head, heap.lo, heap.hi, ts, current, low, low + |words|, sched, sched, threadMain);
      cpu.Load(r);
      Assemble();
    }

    /** An IRQ taken while a thread runs: invisible to it and to all others. */
    method TakeIrq(q: Irq)
      requires Valid() && sched.current.Some? && ts[current].Lo() + IRQ_BYTES <= cpu.esp && IsIrq(q, ts[current].Lo())
      modifies mem, cpu, cpu.irqs`calls
      ensures Valid() && cpu.Now() == old(cpu.Now())
      ensures SameOutside(old(mem[..]), mem[..], ts[current].Lo(), cpu.esp)
    {
      ghost var m, th := mem[..], ts[current];
      NewThreadFits(heap.st, heap.lo, heap.hi, th);
      Scheduler.CurrentNotQueued(sched);
      cpu.Interrupt(q, th.Lo());
      OwnStackHold(m, mem[..], heap.st, runQueue, heap.head, heap.lo, heap.hi, ts, current, th.Lo(), cpu.esp, sched, sched, threadMain);
      Assemble();
    }

    /** `heap_malloc`, called by a thread: the block it gets is new, and no thread's. */
    method ThreadMalloc(n: Word) returns (ptr: Word, ghost b: Block)
      requires Valid()
      modifies heap`st, mem
      ensures Valid() && heap.st == HeapSpec.Malloc(old(heap.st), n).1
      ensures ptr == NULL <==> HeapSpec.Malloc(old(heap.st), n).0.None?
      ensures ptr != NULL ==>
                && HeapSpec.Malloc(old(heap.st), n).0 == Some(b) && ptr == b.Payload()
                && b !in old(heap.st.live) && Unowned(ts, b)
    {
      hide ThreadsHold, Scheduler.Inv, Represents, Compact;
      ghost var m, s := mem[..], heap.st;
      MallocHasRoom(n);
      ptr := heap.HeapMalloc(n);
      b := Block(0, 0);
      if ptr != NULL {
        b := HeapSpec.Malloc(s, n).0.value;
        VendedIsNew(s, n, heap.lo, heap.hi);
      }
      HeapKeepsThreads(m, mem[..], s, runQueue, heap.head, heap.lo, heap.hi, ts, sched, threadMain);
    }

    lemma {:induction false} MallocHasRoom(n: Word)
      requires Wired()
      ensures Tiled(heap.st, heap.lo, heap.hi) && HasRoom(mem.Length, heap.head, heap.st, n)
    {
      TiledHasRoom(mem.Length, heap.head, heap.st, n, heap.lo, heap.hi);
    }

    /** `heap_free`, called by a thread: of NULL, or of a block that no thread lives in. */
    method ThreadFree(ptr: Word, ghost b: Block)
      requires Valid() && (ptr != NULL ==> b in heap.st.live && ptr == b.Payload() && Unowned(ts, b))
      modifies heap`st, mem
      ensures Valid()
      ensures heap.st == if ptr == NULL then old(heap.st) else HeapSpec.Free(old(heap.st), b, HEADER)
    {
      hide ThreadsHold, Scheduler.Inv, Represents, Compact;
      ghost var m, s := mem[..], heap.st;
      heap.HeapFree(ptr, b);
      ghost var t := if ptr == NULL then s else HeapState(s.free, s.live - {b});
      HeapKeepsThreads(m, mem[..], t, runQueue, heap.head, heap.lo, heap.hi, ts, sched, threadMain);
    }

    /** A thread writes words of a heap block of its own, one that no thread lives in. */
    method WriteBlock(low: Word, words: seq<Word>, ghost b: Block)
      requires Valid() && b in heap.st.live && Unowned(ts, b)
      requires b.Payload() <= low && low + |words| <= b.End()
      modifies mem
      ensures Valid()
      ensures forall i :: 0 <= i < |words| ==> low + i < mem.Length && mem[low + i] == words[i]
      ensures SameOutside(old(mem[..]), mem[..], low, low + |words|)
    {
      hide ThreadsHold, Scheduler.Inv, Represents, Compact, Kept;
      ghost var m, t := mem[..], HeapState(heap.st.free, heap.st.live - {b});
      LiveFits(heap.st, heap.lo, heap.hi, b);
      WriteWords(low, words);
      BlockWrites(m, mem[..], heap.st, heap.head, heap.lo, heap.hi, b, low, low + |words|);
      HeapKeepsThreads(m, mem[..], t, runQueue, heap.head, heap.lo, heap.hi, ts, sched, threadMain);
    }

    method WriteWords(low: Word, words: seq<Word>)
      requires low + |words| <= mem.Length
      modifies mem
      ensures forall i :: 0 <= i < |words| ==> mem[low + i] == words[i]
      ensures SameOutside(old(mem[..]), mem[..], low, low + |words|)
    {
      ghost var m := mem[..];
      var i := 0;
      while i < |words|
        invariant 0 <= i <= |words| && SameOutside(m, mem[..], low, low + |words|)
        invariant forall j :: 0 <= j < i ==> mem[low + j] == words[j]
      {
        mem[low + i] := words[i];
        i := i + 1;
      }
    }

    // ---------- Initialisation ----------

    /** `thread_init`: the idle thread and an empty run queue. */
    method ThreadInit(name: Word, idleFn: Word) returns (error: bool)
      requires Wired() && ts == map[] && current == NULL
      modifies this`noThreads, this`idle, this`nextId, this`sched, this`ts, heap`st, mem
      ensures error <==> !HasTwo(old(heap.st))
      ensures error ==> heap.st == old(heap.st) && nextId == old(nextId) && ts == map[]
      ensures !error ==> Valid() && sched == Scheduler.Initial(idle) && idle in ts && ts[idle].fn == idleFn && ts[idle].arg == NULL
      ensures !error ==> Labelled(mem[..], idle, old(nextId), name) && nextId == Mod32(old(nextId) + 1)
    {
      hide Kept, InitialFrame, ThreadsHold, Owned, Wired, HasTwo, WithThread, Labelled;
      ghost var th;
      var thread: Word;
      thread, th := AllocThread(name, idleFn, NULL);
      error := thread == NULL;
      if !error {
        FirstThread(thread, th, old(nextId), name);
      }
    }

    /** The idle thread alone, with an empty run queue. */
    method FirstThread(thread: Word, ghost th: Thread, ghost id: Word, ghost name: Word)
      requires Wired() && Owns(heap.st, th) && InitialFrame(mem[..], th, threadMain) && mem[th.Id() + READY] == 1
      requires thread == th.Id() && current == NULL && Labelled(mem[..], thread, id, name)
      modifies this`noThreads, this`idle, this`sched, this`ts, mem
      ensures Valid() && sched == Scheduler.Initial(idle) && idle == thread && ts == map[th.Id() := th]
      ensures Labelled(mem[..], idle, id, name)
    {
      hide InitialFrame, ThreadsHold, Owned, Compact, Represents, Labelled;
      idle := thread;
      ts := map[th.Id() := th];
      sched := Scheduler.Initial(idle);
      ghost var m := mem[..];
      InitQueue(th);
      Assemble();
      LabelKept(m, idle, id, name);
    }

    /** `thread_run_queue_init`, beside the idle thread. */
    method InitQueue(ghost th: Thread)
      requires Wired() && Owns(heap.st, th) && InitialFrame(mem[..], th, threadMain) && mem[th.Id() + READY] == 1
      modifies mem, this`noThreads
      ensures Wired() && noThreads == 0 && Owned(heap.st, map[th.Id() := th])
      ensures ThreadsHold(mem[..], runQueue, map[th.Id() := th], Scheduler.Initial(th.Id()), threadMain)
      ensures LinksOnly(old(mem[..]), mem[..], runQueue, map[th.Id() := th])
    {
      ghost var m, t, s := mem[..], map[th.Id() := th], Scheduler.Initial(th.Id());
      NewThreadFits(heap.st, heap.lo, heap.hi, th);
      ListInit(mem, runQueue);
      noThreads := 0;
      RelinkLinks(m, mem[..], runQueue, t, runQueue, runQueue, runQueue);
      LinksKeepHeap(m, mem[..], heap.head, heap.st, heap.lo, heap.hi, runQueue, t);
      LinksKeepThread(m, mem[..], heap.st, heap.lo, heap.hi, runQueue, heap.head, t, th.Id(), s, s, threadMain);
      assert QueueRing(runQueue, []) == [runQueue as int];
    }
  }
}
