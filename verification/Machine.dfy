/** The i386 as far as `thread_asm.S`, `interrupts_asm.S` and the IRQ path of `interrupts.c`
    use it: general registers, a stack in word memory, and a program counter that counts
    instructions, their encodings not being modelled. */
module Machine {
  import opened Words

  datatype Regs = Regs(
    eax: Word, ecx: Word, edx: Word, ebx: Word,
    esp: Word, ebp: Word, esi: Word, edi: Word,
    eip: Word, cs: Word, eflags: Word)

  const FRAME_BYTES: int := 52   // struct interrupt_stack_frame
  const IRQ_BYTES: int := 60     // the frame, isr_main's argument and its return address
  const IDT_IRQ_BASE: int := 32
  const NO_IRQS: int := 16
  const IF: int := 512           // the interrupt flag

  ghost predicate SameOutside(m: seq<Word>, m': seq<Word>, lo: int, hi: int) {
    |m'| == |m| && forall a :: 0 <= a < |m| && !(lo <= a < hi) ==> m'[a] == m[a]
  }

  lemma {:induction false} SameOutsideTrans(m0: seq<Word>, m1: seq<Word>, m2: seq<Word>, lo: int, h: int, k: int, hi: int)
    requires SameOutside(m0, m1, lo, h) && SameOutside(m1, m2, lo, k) && h <= hi && k <= hi
    ensures SameOutside(m0, m2, lo, hi)
  {
  }

  lemma {:induction false} WordAbove(m: seq<Word>, m': seq<Word>, lo: int, a: int)
    requires SameOutside(m, m', lo, a) && 0 <= a < |m|
    ensures m'[a] == m[a]
  {
  }

  /** `struct interrupt_stack_frame` at address `f`: the registers `r` that were interrupted
      (with `esp` as pushal saw it), the vector and the error code. */
  ghost predicate FrameAt(m: seq<Word>, f: int, r: Regs, vector: Word, error: Word) {
    && 0 <= f && f + FRAME_BYTES <= |m|
    && m[f] == r.edi && m[f + 4] == r.esi && m[f + 8] == r.ebp && m[f + 12] == f + 32
    && m[f + 16] == r.ebx && m[f + 20] == r.edx && m[f + 24] == r.ecx && m[f + 28] == r.eax
    && m[f + 32] == vector && m[f + 36] == error
    && m[f + 40] == r.eip && m[f + 44] == r.cs && m[f + 48] == r.eflags
  }

  /** One IRQ: its vector, and what the C handler leaves in the registers and stack words
      that the calling convention lets it overwrite, down to address `low`. */
  datatype Irq = Irq(vector: Word, eax: Word, ecx: Word, edx: Word, eflags: Word, argSlot: Word, low: Word, stack: seq<Word>)

  /** An IRQ whose handler stays on a stack that ends at `lo`. */
  predicate IsIrq(q: Irq, lo: nat) {
    IDT_IRQ_BASE <= q.vector < IDT_IRQ_BASE + NO_IRQS && lo <= q.low && q.low % 4 == 0
  }

  predicate AreIrqs(qs: seq<Irq>, lo: nat) {
    forall q :: q in qs ==> IsIrq(q, lo)
  }

  function StackWord(q: Irq, a: nat): Word {
    if a < |q.stack| then q.stack[a] else 0
  }

  // ---------- Context switches ----------

  const SAVED_BYTES: int := 16   // esi, edi, ebx, ebp
  const RESTORE_BYTES: int := 20 // the same and the return address

  /** The registers that `thread_restore` loads from the frame at `sp`, the others as in `r`. */
  function Restored(r: Regs, m: seq<Word>, sp: nat): Regs
    requires sp + RESTORE_BYTES <= |m| < WRAP
  {
    r.(esi := m[sp], edi := m[sp + 4], ebx := m[sp + 8], ebp := m[sp + 12], eip := m[sp + 16], esp := sp + RESTORE_BYTES)
  }

  /** The four registers saved at `sp`. */
  ghost predicate SavedAt(m: seq<Word>, sp: int, r: Regs) {
    0 <= sp && sp + SAVED_BYTES <= |m| &&
    m[sp] == r.esi && m[sp + 4] == r.edi && m[sp + 8] == r.ebx && m[sp + 12] == r.ebp
  }

  /** The registers of `r` and its stack pointer are saved; otherwise only words of the
      stack above `lo` and below `r.esp` changed. */
  ghost predicate SavedOn(r: Regs, m: seq<Word>, slot: int, lo: int, m1: seq<Word>) {
    && |m1| == |m| && 0 <= slot < |m| && m1[slot] == r.esp - SAVED_BYTES && SavedAt(m1, r.esp - SAVED_BYTES, r)
    && forall a {:trigger m1[a]} :: 0 <= a < |m| && a != slot && !(lo <= a < r.esp) ==> m1[a] == m[a]
  }

  /** `a` is outside the stack words [lo, hi) and [lo2, hi2). */
  predicate Outside(a: int, lo: int, hi: int, lo2: int, hi2: int) {
    !(lo <= a < hi) && !(lo2 <= a < hi2)
  }

  /** What `thread_context_switch_asm` does between its call and its `ret`: `lo` and `nextLo`
      are the low ends of the two stacks.  Registers and the words that matter do not depend
      on the interrupts taken; words below a stack pointer may change. */
  ghost predicate Switched(r: Regs, m: seq<Word>, lo: nat, nextLo: nat, r': Regs, m': seq<Word>) {
    && r.esp + 12 <= |m| == |m'| < WRAP
    && var slot, sp := m[r.esp + 4], m[r.esp + 8];
    && slot < |m| && sp + RESTORE_BYTES <= |m|
    && r' == Restored(r, m, sp).(eax := slot, ecx := sp)
    && m'[slot] == r.esp - SAVED_BYTES
    && SavedAt(m', r.esp - SAVED_BYTES, r)
    && forall a {:trigger m'[a]} :: 0 <= a < |m| && a != slot && Outside(a, lo, r.esp, nextLo, sp + SAVED_BYTES) ==> m'[a] == m[a]
  }

  /** The stacks and the slot for the saved stack pointer do not interfere. */
  ghost predicate SwitchSafe(r: Regs, m: seq<Word>, lo: nat, nextLo: nat) {
    && r.esp + 12 <= |m| < WRAP
    && var slot, sp := m[r.esp + 4], m[r.esp + 8];
    && slot % 4 == 0 && slot < |m| && sp % 4 == 0 && nextLo % 4 == 0
    && nextLo + IRQ_BYTES <= sp && sp + RESTORE_BYTES <= |m|
    && !(lo <= slot < r.esp + 12) && !(nextLo <= slot < sp + RESTORE_BYTES)
    && (sp + RESTORE_BYTES <= lo || r.esp + 12 <= nextLo)
  }

  /** `struct irq_handler`; there is no handler when `fn` is NULL. */
  datatype Handler = Handler(fn: Word, arg: Word)

  /** What the kernel does to the world outside the modelled memory: it signals the end of an
      interrupt, enables a line, runs a handler. */
  datatype Effect = EndOfInterrupt(irq: nat) | EnableLine(irq: nat) | Run(handler: Handler)

  /** The `irq_handlers` table; `calls` records the effects, in order. */
  class IrqTable {
    const handlers: array<Handler>
    ghost var calls: seq<Effect>

    ghost predicate Valid() {
      handlers.Length == NO_IRQS
    }

    /** `interrupts_init`. */
    constructor ()
      ensures Valid() && fresh(handlers) && calls == []
      ensures forall i :: 0 <= i < NO_IRQS ==> handlers[i] == Handler(0, 0)
    {
      handlers := new Handler[NO_IRQS];
      calls := [];
      new;
      var i := 0;
      while i < NO_IRQS
        modifies handlers
        invariant 0 <= i <= NO_IRQS && forall j :: 0 <= j < i ==> handlers[j] == Handler(0, 0)
      {
        handlers[i] := Handler(0, 0);
        i := i + 1;
      }
    }

    /** `interrupts_register_irq`: one entry changes, and the line is enabled. */
    method Register(irq: nat, fn: Word, arg: Word)
      requires Valid() && irq < NO_IRQS
      modifies handlers, this`calls
      ensures handlers[..] == old(handlers[..])[irq := Handler(fn, arg)]
      ensures calls == old(calls) + [EnableLine(irq)]
    {
      handlers[irq] := Handler(fn, arg);
      calls := calls + [EnableLine(irq)];
    }

    /** `interrupt_handle_irq`: signal the end of the interrupt, then run the handler that is
        registered for `irq`, if any. */
    method Dispatch(irq: nat)
      requires Valid() && irq < NO_IRQS
      modifies this`calls
      ensures calls == old(calls) + Effects(handlers[..], 32 + irq)
      ensures handlers[irq].fn != 0 ==> calls == old(calls) + [EndOfInterrupt(irq), Run(handlers[irq])]
      ensures handlers[irq].fn == 0 ==> calls == old(calls) + [EndOfInterrupt(irq)]
    {
      calls := calls + [EndOfInterrupt(irq)];
      var h := handlers[irq];
      if h.fn != 0 {
        calls := calls + [Run(h)];
      }
    }
  }

  class Cpu {
    const mem: array<Word>
    const irqs: IrqTable
    var eax: Word
    var ecx: Word
    var edx: Word
    var ebx: Word
    var esp: Word
    var ebp: Word
    var esi: Word
    var edi: Word
    var eip: Word
    var cs: Word
    var eflags: Word

    constructor (memory: array<Word>, table: IrqTable, r: Regs)
      ensures mem == memory && irqs == table && Now() == r
    {
      mem, irqs := memory, table;
      eax, ecx, edx, ebx := r.eax, r.ecx, r.edx, r.ebx;
      esp, ebp, esi, edi := r.esp, r.ebp, r.esi, r.edi;
      eip, cs, eflags := r.eip, r.cs, r.eflags;
    }

    /** All registers at once. */
    method Load(r: Regs)
      modifies this
      ensures Now() == r
    {
      eax, ecx, edx, ebx := r.eax, r.ecx, r.edx, r.ebx;
      esp, ebp, esi, edi := r.esp, r.ebp, r.esi, r.edi;
      eip, cs, eflags := r.eip, r.cs, r.eflags;
    }

    ghost function Now(): Regs
      reads this
    {
      Regs(eax, ecx, edx, ebx, esp, ebp, esi, edi, eip, cs, eflags)
    }

    /** Room for `bytes` more bytes on a stack that ends at `lo`. */
    ghost predicate Room(lo: int, bytes: int)
      reads this`esp, irqs
    {
      0 <= lo && lo % 4 == 0 && esp % 4 == 0 && lo + bytes <= esp <= mem.Length < WRAP && irqs.Valid()
    }

    method Push(v: Word)
      requires 4 <= esp <= mem.Length
      modifies this`esp, mem
      ensures esp == old(esp) - 4 && mem[..] == old(mem[..])[esp := v]
    {
      esp := esp - 4;
      mem[esp] := v;
    }

    method Pop() returns (v: Word)
      requires esp < mem.Length && esp + 4 < WRAP
      modifies this`esp
      ensures esp == old(esp) + 4 && v == mem[old(esp)]
    {
      v := mem[esp];
      esp := esp + 4;
    }

    // ---------- Interrupts ----------

    /** From the interrupt to the first instruction of `isr_main`, through either stub form:
        the CPU pushes the error code for some vectors, the stub a dummy for the others. */
    method EnterIsr(vector: Word, cpuPushesError: bool, error: Word, ghost lo: nat)
      requires Room(lo, IRQ_BYTES)
      modifies this`esp, this`eip, this`eflags, mem
      ensures esp == old(esp) - IRQ_BYTES
      ensures FrameAt(mem[..], old(esp) - FRAME_BYTES, old(Now()), vector, if cpuPushesError then error else 0)
      ensures mem[esp + 4] == old(esp) - FRAME_BYTES
      ensures SameOutside(old(mem[..]), mem[..], lo, old(esp))
    {
      BuildFrame(vector, if cpuPushesError then error else 0);
      Push(esp);
      Push(eip);       // call isr_main
    }

    /** The gate, the stub and `pushal` build the frame that `isr_main` is given. */
    method BuildFrame(vector: Word, error: Word)
      requires FRAME_BYTES <= esp <= mem.Length
      modifies this`esp, this`eflags, mem
      ensures esp == old(esp) - FRAME_BYTES
      ensures FrameAt(mem[..], esp, old(Now()), vector, error)
      ensures SameOutside(old(mem[..]), mem[..], esp, old(esp))
    {
      EnterGate(error);
      Push(vector);
      ghost var m := mem[..];
      PushAll();
      ghost var f := esp;
      assert m[f + 32] == vector && m[f + 36] == error;
      assert m[f + 40] == eip && m[f + 44] == cs;
    }

    /** What the CPU pushes, with the error word that it or the stub adds; an interrupt gate
        then clears the interrupt flag. */
    method EnterGate(error: Word)
      requires 16 <= esp <= mem.Length
      modifies this`esp, this`eflags, mem
      ensures esp == old(esp) - 16
      ensures mem[esp] == error && mem[esp + 4] == old(eip) && mem[esp + 8] == old(cs) && mem[esp + 12] == old(eflags)
      ensures eflags == if old(eflags) / 512 % 2 == 1 then old(eflags) - 512 else old(eflags)
      ensures SameOutside(old(mem[..]), mem[..], esp, old(esp))
    {
      Push(eflags);
      Push(cs);
      Push(eip);
      Push(error);
      eflags := if eflags / IF % 2 == 1 then eflags - IF else eflags;
    }

    /** `pushal`. */
    method PushAll()
      requires 32 <= esp <= mem.Length
      modifies this`esp, mem
      ensures esp == old(esp) - 32
      ensures mem[esp] == edi && mem[esp + 4] == esi && mem[esp + 8] == ebp && mem[esp + 12] == old(esp)
      ensures mem[esp + 16] == ebx && mem[esp + 20] == edx && mem[esp + 24] == ecx && mem[esp + 28] == eax
      ensures SameOutside(old(mem[..]), mem[..], esp, old(esp))
    {
      var was := esp;
      Push(eax);
      Push(ecx);
      Push(edx);
      Push(ebx);
      Push(was);
      Push(ebp);
      Push(esi);
      Push(edi);
    }

    /** `isr_main` on an IRQ: it dispatches on the vector in the frame, and as a C function
        overwrites only caller-saved registers, its argument and the stack below. */
    method IsrMain(q: Irq, ghost lo: nat)
      requires Room(lo, 0) && esp + 8 <= mem.Length && IsIrq(q, lo)
      requires mem[esp + 4] % 4 == 0 && esp + 8 <= mem[esp + 4] && mem[esp + 4] + FRAME_BYTES <= mem.Length
      requires mem[mem[esp + 4] + 32] == q.vector
      modifies this`eax, this`ecx, this`edx, this`eflags, this`esp, this`eip, mem, irqs`calls
      ensures esp == old(esp) + 4
      ensures SameOutside(old(mem[..]), mem[..], lo, old(esp) + 8)
      ensures irqs.calls == old(irqs.calls) + Effects(irqs.handlers[..], q.vector)
      ensures var h := irqs.handlers[q.vector - 32];
        irqs.calls == old(irqs.calls) + [EndOfInterrupt(q.vector - 32)] + if h.fn != 0 then [Run(h)] else []
    {
      var frame := mem[esp + 4];
      irqs.Dispatch(mem[frame + 32] - IDT_IRQ_BASE);
      eax, ecx, edx, eflags := q.eax, q.ecx, q.edx, q.eflags;
      ghost var m := mem[..];
      mem[esp + 4] := q.argSlot;
      var a := q.low;
      while a < esp
        modifies mem
        invariant lo <= a && a % 4 == 0
        invariant SameOutside(m, mem[..], lo, esp + 8)
      {
        mem[a] := StackWord(q, a);
        a := a + 4;
      }
      eip := Pop();    // ret
    }

    /** `popal`, which skips the saved esp. */
    method PopAll()
      requires esp + 32 <= mem.Length && esp + 32 < WRAP
      modifies this`edi, this`esi, this`ebp, this`ebx, this`edx, this`ecx, this`eax, this`esp
      ensures esp == old(esp) + 32
      ensures edi == mem[old(esp)] && esi == mem[old(esp) + 4] && ebp == mem[old(esp) + 8]
      ensures ebx == mem[old(esp) + 16] && edx == mem[old(esp) + 20]
      ensures ecx == mem[old(esp) + 24] && eax == mem[old(esp) + 28]
    {
      edi := Pop();
      esi := Pop();
      ebp := Pop();
      esp := esp + 4;
      ebx := Pop();
      edx := Pop();
      ecx := Pop();
      eax := Pop();
    }

    /** From the return of `isr_main` to the interrupted instruction. */
    method LeaveIsr(ghost r: Regs, ghost vector: Word, ghost error: Word)
      requires esp + 4 + FRAME_BYTES <= mem.Length < WRAP && FrameAt(mem[..], esp + 4, r, vector, error)
      requires r.esp == esp + 4 + FRAME_BYTES
      modifies this
      ensures Now() == r
    {
      ghost var f := esp + 4;
      esp := esp + 4;  // add $4, %esp
      PopAll();
      esp := esp + 8;  // add $8, %esp
      eip := Pop();    // iret
      cs := Pop();
      eflags := Pop();
    }

    /** An IRQ taken between two instructions is transparent: every register is restored and
        no word at or above the stack pointer changes. */
    method Interrupt(q: Irq, ghost lo: nat)
      requires Room(lo, IRQ_BYTES) && IsIrq(q, lo)
      modifies this, mem, irqs`calls
      ensures Now() == old(Now())
      ensures SameOutside(old(mem[..]), mem[..], lo, esp)
      ensures irqs.calls == old(irqs.calls) + Effects(irqs.handlers[..], q.vector)
      ensures var h := irqs.handlers[q.vector - 32];
        irqs.calls == old(irqs.calls) + [EndOfInterrupt(q.vector - 32)] + if h.fn != 0 then [Run(h)] else []
    {
      ghost var r, m, f := Now(), mem[..], esp - FRAME_BYTES;
      EnterIsr(q.vector, false, 0, lo);
      ghost var m1 := mem[..];
      IsrMain(q, lo);
      FrameKept(m1, mem[..], f, r, q.vector, 0, lo);
      SameOutsideTrans(m, m1, mem[..], lo, r.esp, f, r.esp);
      LeaveIsr(r, q.vector, 0);
    }

    /** Any number of IRQs, one after the other. */
    method Interrupts(qs: seq<Irq>, ghost lo: nat)
      requires Room(lo, IRQ_BYTES) && AreIrqs(qs, lo)
      modifies this, mem, irqs`calls
      ensures Now() == old(Now())
      ensures SameOutside(old(mem[..]), mem[..], lo, esp)
    {
      ghost var r, m := Now(), mem[..];
      var i := 0;
      while i < |qs|
        invariant 0 <= i <= |qs| && Now() == r
        invariant SameOutside(m, mem[..], lo, esp)
      {
        ghost var m1 := mem[..];
        Interrupt(qs[i], lo);
        SameOutsideTrans(m, m1, mem[..], lo, esp, esp, esp);
        i := i + 1;
      }
    }

    // ---------- thread_asm.S ----------

    /** The boundary after an instruction, with the IRQs taken there. */
    method Boundary(qs: seq<Irq>, ghost lo: nat)
      requires Room(lo, IRQ_BYTES) && AreIrqs(qs, lo)
      modifies this, mem, irqs`calls
      ensures Now() == old(Now()).(eip := eip)
      ensures SameOutside(old(mem[..]), mem[..], lo, esp)
    {
      eip := Mod32(eip + 1);
      Interrupts(qs, lo);
    }

    /** A push and the boundary after it. */
    method PushStep(v: Word, qs: seq<Irq>, ghost lo: nat)
      requires Room(lo, IRQ_BYTES + 4) && AreIrqs(qs, lo)
      modifies this, mem, irqs`calls
      ensures Now() == old(Now()).(esp := old(esp) - 4, eip := eip)
      ensures mem[esp] == v && SameOutside(old(mem[..]), mem[..], lo, old(esp))
    {
      Push(v);
      Boundary(qs, lo);
    }

    /** Two pops of `thread_restore`, into esi and edi. */
    method PopIndexes(qs: seq<seq<Irq>>, ghost lo: nat)
      requires Room(lo, IRQ_BYTES) && esp + 8 <= mem.Length
      requires |qs| == 2 && AreIrqs(qs[0], lo) && AreIrqs(qs[1], lo)
      modifies this, mem, irqs`calls
      ensures Now() == old(Now()).(esi := old(mem[esp]), edi := old(mem[esp + 4]), esp := old(esp) + 8, eip := eip)
      ensures SameOutside(old(mem[..]), mem[..], lo, old(esp) + 8)
    {
      hide IsIrq, AreIrqs, SameOutside;
      ghost var m0, sp := mem[..], esp;
      esi := Pop();
      Boundary(qs[0], lo);
      ghost var m1 := mem[..];
      WordAbove(m0, m1, lo, sp + 4);
      edi := Pop();
      Boundary(qs[1], lo);
      SameOutsideTrans(m0, m1, mem[..], lo, sp + 4, sp + 8, sp + 8);
    }

    /** Two pops of `thread_restore`, into ebx and ebp. */
    method PopBases(qs: seq<seq<Irq>>, ghost lo: nat)
      requires Room(lo, IRQ_BYTES) && esp + 8 <= mem.Length
      requires |qs| == 2 && AreIrqs(qs[0], lo) && AreIrqs(qs[1], lo)
      modifies this, mem, irqs`calls
      ensures Now() == old(Now()).(ebx := old(mem[esp]), ebp := old(mem[esp + 4]), esp := old(esp) + 8, eip := eip)
      ensures SameOutside(old(mem[..]), mem[..], lo, old(esp) + 8)
    {
      hide IsIrq, AreIrqs, SameOutside;
      ghost var m0, sp := mem[..], esp;
      ebx := Pop();
      Boundary(qs[0], lo);
      ghost var m1 := mem[..];
      WordAbove(m0, m1, lo, sp + 4);
      ebp := Pop();
      Boundary(qs[1], lo);
      SameOutsideTrans(m0, m1, mem[..], lo, sp + 4, sp + 8, sp + 8);
    }

    /** `thread_restore`: `qs[i]` are the IRQs after pop number i. */
    method ThreadRestore(qs: seq<seq<Irq>>, ghost lo: nat)
      requires Room(lo, IRQ_BYTES) && esp + RESTORE_BYTES <= mem.Length
      requires |qs| == 4 && forall i :: 0 <= i < 4 ==> AreIrqs(qs[i], lo)
      modifies this, mem, irqs`calls
      ensures Now() == Restored(old(Now()), old(mem[..]), old(esp))
      ensures SameOutside(old(mem[..]), mem[..], lo, old(esp) + SAVED_BYTES)
    {
      ghost var m0, sp := mem[..], esp;
      PopIndexes(qs[..2], lo);
      ghost var m1 := mem[..];
      PopBases(qs[2..], lo);
      SameOutsideTrans(m0, m1, mem[..], lo, sp + 8, sp + 16, sp + 16);
      eip := Pop();  // ret
    }

    /** The pushes of `thread_context_switch_asm`. */
    method SaveRegisters(qs: seq<seq<Irq>>, ghost lo: nat)
      requires Room(lo, IRQ_BYTES + SAVED_BYTES)
      requires |qs| == 4 && forall i :: 0 <= i < 4 ==> AreIrqs(qs[i], lo)
      modifies this, mem, irqs`calls
      ensures Now() == old(Now()).(esp := old(esp) - SAVED_BYTES, eip := eip)
      ensures SavedAt(mem[..], esp, old(Now()))
      ensures SameOutside(old(mem[..]), mem[..], lo, old(esp))
    {
      ghost var r := Now();
      PushStep(ebp, qs[0], lo);
      PushStep(ebx, qs[1], lo);
      PushStep(edi, qs[2], lo);
      PushStep(esi, qs[3], lo);
    }

    /** `thread_context_switch_asm`, entered with its return address and arguments on the
        stack and left by its `ret`: `qs[i]` are the IRQs taken after instruction number i. */
    method ThreadContextSwitchAsm(qs: seq<seq<Irq>>, ghost lo: nat, ghost nextLo: nat)
      requires Room(lo, IRQ_BYTES + SAVED_BYTES) && SwitchSafe(Now(), mem[..], lo, nextLo)
      requires |qs| == 12 && forall i :: 0 <= i < 12 ==> AreIrqs(qs[i], if i < 7 then lo else nextLo)
      modifies this, mem, irqs`calls
      ensures Switched(old(Now()), old(mem[..]), lo, nextLo, Now(), mem[..])
    {
      ghost var r, m := Now(), mem[..];
      ghost var slot, sp := m[r.esp + 4], m[r.esp + 8];
      SaveContext(qs[..7], lo);
      ghost var m1 := mem[..];
      esp := ecx;
      Boundary(qs[7], nextLo);
      ghost var m2 := mem[..];
      FrameWords(m, m1, m2, slot, lo, nextLo, r);
      ThreadRestore(qs[8..], nextLo);
      SameOutsideTrans(m1, m2, mem[..], nextLo, sp, sp + SAVED_BYTES, sp + SAVED_BYTES);
      SwitchComposes(m, m1, mem[..], lo, nextLo, r);
    }

    /** `thread_context_switch_asm` up to the change of stacks. */
    method SaveContext(qs: seq<seq<Irq>>, ghost lo: nat)
      requires Room(lo, IRQ_BYTES + SAVED_BYTES) && esp + 12 <= mem.Length
      requires mem[esp + 4] < mem.Length && !(lo <= mem[esp + 4] < esp)
      requires |qs| == 7 && forall i :: 0 <= i < 7 ==> AreIrqs(qs[i], lo)
      modifies this, mem, irqs`calls
      ensures Now() == old(Now()).(eax := old(mem[esp + 4]), ecx := old(mem[esp + 8]), esp := old(esp) - SAVED_BYTES, eip := eip)
      ensures SavedOn(old(Now()), old(mem[..]), old(mem[esp + 4]), lo, mem[..])
    {
      ghost var r, m := Now(), mem[..];
      ecx := mem[esp + 8];
      Boundary(qs[0], lo);
      eax := mem[esp + 4];
      Boundary(qs[1], lo);
      ghost var m0 := mem[..];
      SaveRegisters(qs[2..6], lo);
      SameOutsideTrans(m, m0, mem[..], lo, r.esp, r.esp, r.esp);
      StoreSlot(qs[6], lo, r);
    }

    /** `mov %esp, (%eax)` and the boundary after it. */
    method StoreSlot(qs: seq<Irq>, ghost lo: nat, ghost r: Regs)
      requires Room(lo, IRQ_BYTES) && AreIrqs(qs, lo) && esp == r.esp - SAVED_BYTES && r.esp <= mem.Length
      requires eax < mem.Length && !(lo <= eax < r.esp) && SavedAt(mem[..], esp, r)
      modifies this, mem, irqs`calls
      ensures Now() == old(Now()).(eip := eip)
      ensures mem[eax] == esp && SavedAt(mem[..], esp, r)
      ensures SameOutside(old(mem[..])[eax := esp], mem[..], lo, esp)
    {
      mem[eax] := esp;
      Boundary(qs, lo);
    }

    /** `thread_load_first_asm`, entered with its return address and argument on the stack. */
    method ThreadLoadFirstAsm(qs: seq<seq<Irq>>, ghost nextLo: nat)
      requires irqs.Valid() && esp + 8 <= mem.Length < WRAP && mem[esp + 4] % 4 == 0 && nextLo % 4 == 0
      requires nextLo + IRQ_BYTES <= mem[esp + 4] && mem[esp + 4] + RESTORE_BYTES <= mem.Length
      requires |qs| == 5 && forall i :: 0 <= i < 5 ==> AreIrqs(qs[i], nextLo)
      modifies this, mem, irqs`calls
      ensures Now() == Restored(old(Now()), old(mem[..]), old(mem[esp + 4]))
      ensures SameOutside(old(mem[..]), mem[..], nextLo, old(mem[esp + 4]) + SAVED_BYTES)
    {
      ghost var m, sp := mem[..], mem[esp + 4];
      esp := mem[esp + 4];
      Boundary(qs[0], nextLo);
      ghost var m1 := mem[..];
      ThreadRestore(qs[1..], nextLo);
      SameOutsideTrans(m, m1, mem[..], nextLo, sp, sp + SAVED_BYTES, sp + SAVED_BYTES);
    }
  }

  /** What an IRQ of vector `vector` does with the table `handlers`. */
  function Effects(handlers: seq<Handler>, vector: Word): seq<Effect>
    requires |handlers| == NO_IRQS && IDT_IRQ_BASE <= vector < IDT_IRQ_BASE + NO_IRQS
  {
    var h := handlers[vector - IDT_IRQ_BASE];
    [EndOfInterrupt(vector - IDT_IRQ_BASE)] + if h.fn == 0 then [] else [Run(h)]
  }

  /** After the registration of line `i`, an IRQ of vector 32 + i is acknowledged and runs the
      handler with its argument, or nothing when the handler is NULL; IRQs of other vectors do
      what they did. */
  lemma {:induction false} RegisteredRuns(handlers: seq<Handler>, i: nat, fn: Word, arg: Word, vector: Word)
    requires |handlers| == 16 && i < 16 && 32 <= vector < 48
    ensures var after := handlers[i := Handler(fn, arg)];
      && (fn != 0 ==> Effects(after, 32 + i) == [EndOfInterrupt(i), Run(Handler(fn, arg))])
      && (fn == 0 ==> Effects(after, 32 + i) == [EndOfInterrupt(i)])
      && (vector != 32 + i ==> Effects(after, vector) == Effects(handlers, vector))
  {
  }

  lemma {:induction false} FrameKept(m: seq<Word>, m': seq<Word>, f: int, r: Regs, vector: Word, error: Word, lo: int)
    requires FrameAt(m, f, r, vector, error) && SameOutside(m, m', lo, f)
    ensures FrameAt(m', f, r, vector, error)
  {
  }

  /** The next thread's frame is still there when it is popped. */
  lemma {:induction false} FrameWords(m: seq<Word>, m1: seq<Word>, m2: seq<Word>, slot: int, lo: nat, nextLo: nat, r: Regs)
    requires SwitchSafe(r, m, lo, nextLo) && slot == m[r.esp + 4] && SavedOn(r, m, slot, lo, m1)
    requires SameOutside(m1, m2, nextLo, m[r.esp + 8])
    ensures Restored(r, m2, m[r.esp + 8]) == Restored(r, m, m[r.esp + 8])
  {
  }

  /** Saving on one stack and restoring from the other make a context switch. */
  lemma {:induction false} SwitchComposes(m: seq<Word>, m1: seq<Word>, m': seq<Word>, lo: nat, nextLo: nat, r: Regs)
    requires SwitchSafe(r, m, lo, nextLo) && lo <= r.esp - SAVED_BYTES
    requires SavedOn(r, m, m[r.esp + 4], lo, m1) && SameOutside(m1, m', nextLo, m[r.esp + 8] + SAVED_BYTES)
    ensures var slot, sp := m[r.esp + 4], m[r.esp + 8];
            Switched(r, m, lo, nextLo, Restored(r, m, sp).(eax := slot, ecx := sp), m')
  {
    var slot, sp := m[r.esp + 4], m[r.esp + 8];
    forall a | 0 <= a < |m| && a != slot && Outside(a, lo, r.esp, nextLo, sp + SAVED_BYTES) ensures m'[a] == m[a] {
      assert m1[a] == m[a];
    }
  }

  /** IRQs are invisible to a context switch: two executions of it, with whatever IRQs, end
      in the same registers and agree on the saved frame, on the saved stack pointer and on
      every word that is not below one of the two stack pointers. */
  lemma {:induction false} IrqsInvisible(r: Regs, m: seq<Word>, lo: nat, nextLo: nat, r1: Regs, m1: seq<Word>, r2: Regs, m2: seq<Word>)
    requires SwitchSafe(r, m, lo, nextLo) && r.esp % 4 == 0 && SAVED_BYTES <= r.esp
    requires Switched(r, m, lo, nextLo, r1, m1) && Switched(r, m, lo, nextLo, r2, m2)
    ensures r1 == r2 && |m1| == |m2|
    ensures var sp := m[r.esp + 8];
            forall a :: 0 <= a < |m| && a % 4 == 0 && Outside(a, lo, r.esp - SAVED_BYTES, nextLo, sp + SAVED_BYTES) ==> m1[a] == m2[a]
  {
    var slot, sp := m[r.esp + 4], m[r.esp + 8];
    var f := r.esp - SAVED_BYTES;
    forall a | 0 <= a < |m| && a % 4 == 0 && Outside(a, lo, f, nextLo, sp + SAVED_BYTES)
      ensures m1[a] == m2[a]
    {
      if f <= a < r.esp {
        FourWords(f, a);
      } else if a != slot {
        assert m1[a] == m[a] && m2[a] == m[a];
      }
    }
  }

  lemma {:induction false} FourWords(f: int, a: int)
    requires f % 4 == 0 && a % 4 == 0 && f <= a < f + 16
    ensures a == f || a == f + 4 || a == f + 8 || a == f + 12
  {
  }
}
