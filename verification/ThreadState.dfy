/** How `src/kernel/thread.c` lays threads out in memory: `struct thread`, the frame that
    `thread_setup_stack` builds, and the run queue threaded through the structs. */
module ThreadState {
  import opened Words
  import opened HeapSpec
  import opened HeapTiling
  import opened HeapHistory
  import opened IntrusiveList
  import opened HeapMemory
  import Coroutines
  import Machine
  import Scheduler

  // struct thread
  const ID: int := 0
  const STACK_PTR: int := 8
  const STACK_SIZE: int := 12
  const READY: int := 16
  const NODE: int := 20
  const THREAD_BYTES: int := 28
  const THREAD_DEFAULT_STACK_SIZE: int := 4096
  const INITIAL_FRAME: int := 32

  /** A thread by the two blocks that hold its struct and its stack, and what it runs. */
  datatype Thread = Thread(tcb: Block, stack: Block, fn: Word, arg: Word) {
    function Id(): nat { tcb.Payload() }
    function Lo(): nat { stack.Payload() }
    function Top(): nat { stack.Payload() + THREAD_DEFAULT_STACK_SIZE }
  }

  /** The blocks of a thread are live, distinct and large enough. */
  ghost predicate Owns(s: HeapState, th: Thread) {
    && th.tcb in s.live && th.stack in s.live && th.tcb != th.stack
    && THREAD_BYTES <= th.tcb.size && THREAD_DEFAULT_STACK_SIZE <= th.stack.size
  }

  ghost predicate Fits(len: nat, th: Thread) {
    th.Id() + THREAD_BYTES <= len && th.Top() <= len
  }

  ghost predicate NoShare(t: Thread, u: Thread) {
    t.tcb != u.tcb && t.tcb != u.stack && t.stack != u.tcb && t.stack != u.stack
  }

  /** `a` belongs to the thread: its stack, or its struct but the list node. */
  ghost predicate Private(th: Thread, a: int) {
    InPayload(th.stack, a) || th.Id() <= a < th.Id() + NODE
  }

  /** What `thread_setup_stack` leaves at `sp`: four zero registers, the address of
      thread_main, a zero return address for it and its two arguments. */
  ghost predicate EntryFrame(m: seq<Word>, sp: int, threadMain: Word, fn: Word, arg: Word) {
    && 0 <= sp && sp + INITIAL_FRAME <= |m|
    && m[sp] == 0 && m[sp + 4] == 0 && m[sp + 8] == 0 && m[sp + 12] == 0
    && m[sp + 16] == threadMain && m[sp + 20] == 0 && m[sp + 24] == fn && m[sp + 28] == arg
  }

  /** The thread's saved stack pointer points at such a frame at the top of its stack. */
  ghost predicate InitialFrame(m: seq<Word>, th: Thread, threadMain: Word) {
    && th.Id() + THREAD_BYTES <= |m|
    && m[th.Id() + STACK_PTR] == th.Top() - INITIAL_FRAME
    && EntryFrame(m, th.Top() - INITIAL_FRAME, threadMain, th.fn, th.arg)
  }

  /** Registers at the entry of `thread_main`(fn, arg), called as by the C convention with a
      zero return address, and zero callee-saved registers. */
  ghost predicate EntersMain(r: Machine.Regs, m: seq<Word>, threadMain: Word, fn: Word, arg: Word) {
    && r.eip == threadMain && r.esi == 0 && r.edi == 0 && r.ebx == 0 && r.ebp == 0
    && r.esp + 12 <= |m| && m[r.esp] == 0 && m[r.esp + 4] == fn && m[r.esp + 8] == arg
  }

  /** Restoring such a frame enters `thread_main` with its arguments, even though interrupts
      may have rewritten the words already popped. */
  lemma {:induction false} RestoreEntersMain(r: Machine.Regs, m: seq<Word>, m': seq<Word>, sp: nat, threadMain: Word, fn: Word, arg: Word)
    requires EntryFrame(m, sp, threadMain, fn, arg) && |m| < WRAP
    requires |m'| == |m| && forall a :: sp + Machine.SAVED_BYTES <= a < sp + INITIAL_FRAME ==> m'[a] == m[a]
    ensures EntersMain(Machine.Restored(r, m, sp), m', threadMain, fn, arg)
    ensures Machine.Restored(r, m, sp).esp == sp + Machine.RESTORE_BYTES
  {
  }

  /** `t` has not been dispatched yet. */
  predicate Unstarted(s: Scheduler.Sched, t: nat) {
    t in s.queue || (t == s.idle && s.current != Some(t))
  }

  /** Memory agrees with the scheduler about thread `th`. */
  ghost predicate ThreadHolds(m: seq<Word>, th: Thread, s: Scheduler.Sched, threadMain: Word) {
    && th.Id() + THREAD_BYTES <= |m|
    && m[th.Id() + READY] == (if th.Id() in s.ready then 1 else 0)
    && (Unstarted(s, th.Id()) ==> InitialFrame(m, th, threadMain))
  }

  ghost function QueueRing(rq: int, q: seq<nat>): (r: seq<int>)
    ensures |r| == |q| + 1 && r[0] == rq
    ensures forall i :: 0 <= i < |q| ==> r[i + 1] == q[i] + NODE
  {
    [rq] + seq(|q|, i requires 0 <= i < |q| => q[i] + NODE)
  }

  /** The threads that exist, by the address of their struct, own their blocks alone. */
  ghost predicate Owned(s: HeapState, ts: map<nat, Thread>) {
    && (forall t :: t in ts ==> ts[t].Id() == t && Owns(s, ts[t]))
    && (forall t, u {:trigger NoShare(ts[t], ts[u])} :: t in ts && u in ts && t != u ==> NoShare(ts[t], ts[u]))
  }

  /** Memory agrees with the scheduler's state `s` on all threads `ts` and on the queue. */
  ghost predicate ThreadsHold(m: seq<Word>, rq: int, ts: map<nat, Thread>, s: Scheduler.Sched, threadMain: Word) {
    && (forall t :: t in ts <==> t == s.idle || t in s.created)
    && (forall t :: t in s.queue ==> t in ts)
    && Linked(m, QueueRing(rq, s.queue))
    && forall t :: t in ts ==> ThreadHolds(m, ts[t], s, threadMain)
  }

  /** Memory agrees with the state `s` but for the queue, which is already `q`. */
  ghost predicate PoppedHold(m: seq<Word>, rq: int, ts: map<nat, Thread>, s: Scheduler.Sched, q: seq<nat>, threadMain: Word) {
    && (forall t :: t in ts <==> t == s.idle || t in s.created)
    && (forall t :: t in s.queue ==> t in ts)
    && Linked(m, QueueRing(rq, q))
    && forall t :: t in ts ==> ThreadHolds(m, ts[t], s, threadMain)
  }

  /** From `s` to `s'` thread `d` got the CPU: nothing starts to wait, and `d` waits no more. */
  ghost predicate Dispatches(s: Scheduler.Sched, s': Scheduler.Sched, d: nat) {
    && s'.ready == s.ready && s'.idle == s.idle && s'.created == s.created
    && (forall t :: t in s'.queue ==> t in s.queue)
    && !Unstarted(s', d) && forall t :: Unstarted(s', t) ==> Unstarted(s, t)
  }

  /** The queue's head lies in memory, clear of the arena and of the free list's head. */
  ghost predicate QueueHeadFits(len: nat, rq: int, head: int, lo: nat, hi: nat) {
    && 0 < rq && rq % 4 == 0 && rq + 8 <= len < WRAP
    && (rq + 8 <= lo || hi <= rq) && Separate(rq, head)
  }

  // ---------- Where a thread's words are ----------

  lemma {:induction false} LiveApart(s: HeapState, lo: nat, hi: nat, b: Block, c: Block)
    requires Compact(s, lo, hi) && b in s.live && c in s.live && b != c
    ensures Apart(b, c)
  {
    assert Tiled(s, lo, hi);
    TiledGeometry(s, lo, hi);
    assert Has(s, b) && Has(s, c);
  }

  lemma {:induction false} LiveFits(s: HeapState, lo: nat, hi: nat, b: Block)
    requires Compact(s, lo, hi) && b in s.live
    ensures lo <= b.addr && b.End() <= hi && b.addr % 4 == 0
  {
    assert Tiled(s, lo, hi);
    TiledGeometry(s, lo, hi);
    assert Has(s, b);
  }

  /** The private words of one thread are no words of another, nor of any list node. */
  lemma {:induction false} PrivateApart(s: HeapState, lo: nat, hi: nat, t: Thread, u: Thread, a: int)
    requires Compact(s, lo, hi) && Owns(s, t) && Owns(s, u) && NoShare(t, u) && Private(t, a)
    ensures !Private(u, a) && !(u.Id() <= a < u.Id() + THREAD_BYTES)
  {
    LiveApart(s, lo, hi, t.tcb, u.tcb);
    LiveApart(s, lo, hi, t.tcb, u.stack);
    LiveApart(s, lo, hi, t.stack, u.tcb);
    LiveApart(s, lo, hi, t.stack, u.stack);
  }

  lemma {:induction false} OwnPrivate(s: HeapState, lo: nat, hi: nat, t: Thread, a: int)
    requires Compact(s, lo, hi) && Owns(s, t) && Private(t, a)
    ensures !(t.Id() + NODE <= a < t.Id() + THREAD_BYTES)
    ensures lo <= a < hi
  {
    LiveApart(s, lo, hi, t.tcb, t.stack);
    LiveFits(s, lo, hi, t.tcb);
    LiveFits(s, lo, hi, t.stack);
  }

  // ---------- Private words ----------

  /** Only private words of `c` and `d` changed. */
  ghost predicate PrivateOnly(m: seq<Word>, m': seq<Word>, c: Thread, d: Thread) {
    |m'| == |m| && forall a {:trigger NotPrivate(c, d, a)} :: 0 <= a < |m| && NotPrivate(c, d, a) ==> m'[a] == m[a]
  }

  ghost predicate NotPrivate(c: Thread, d: Thread, a: int) {
    !Private(c, a) && !Private(d, a)
  }

  ghost predicate InBlocks(th: Thread, a: int) {
    InPayload(th.tcb, a) || InPayload(th.stack, a)
  }

  /** Only words in the blocks of `c` and `d` changed. */
  ghost predicate BlocksOnly(m: seq<Word>, m': seq<Word>, c: Thread, d: Thread) {
    |m'| == |m| && forall a {:trigger NotInBlocks(c, d, a)} :: 0 <= a < |m| && NotInBlocks(c, d, a) ==> m'[a] == m[a]
  }

  ghost predicate NotInBlocks(c: Thread, d: Thread, a: int) {
    !InBlocks(c, a) && !InBlocks(d, a)
  }

  lemma {:induction false} BlocksNoHeader(s: HeapState, lo: nat, hi: nat, t: Thread, b: Block, a: int)
    requires Compact(s, lo, hi) && Owns(s, t) && Has(s, b) && InBlocks(t, a)
    ensures !(b.addr <= a < b.addr + HEADER)
  {
    assert Tiled(s, lo, hi);
    TiledGeometry(s, lo, hi);
    assert Has(s, t.tcb) && Has(s, t.stack);
    assert b == t.tcb || Apart(b, t.tcb) by { if b in s.free { assert Apart(b, t.tcb); } }
    assert b == t.stack || Apart(b, t.stack) by { if b in s.free { assert Apart(b, t.stack); } }
  }

  /** Threads writing in their own blocks leave the heap's bookkeeping alone. */
  lemma {:induction false} BlocksKeepHeap(m: seq<Word>, m': seq<Word>, head: int, s: HeapState, lo: nat, hi: nat, c: Thread, d: Thread)
    requires Represents(m, head, s) && Compact(s, lo, hi) && (hi <= head || head + 8 <= lo)
    requires Owns(s, c) && Owns(s, d) && BlocksOnly(m, m', c, d)
    ensures Represents(m', head, s)
  {
    forall b | Has(s, b) ensures SameHeader(m, m', b) {
      assert HeaderFits(|m|, head, b);
      forall a | b.addr <= a < b.addr + HEADER ensures m'[a] == m[a] {
        if InBlocks(c, a) { BlocksNoHeader(s, lo, hi, c, b, a); }
        if InBlocks(d, a) { BlocksNoHeader(s, lo, hi, d, b, a); }
        assert NotInBlocks(c, d, a);
      }
    }
    LiveFits(s, lo, hi, c.tcb);
    LiveFits(s, lo, hi, c.stack);
    LiveFits(s, lo, hi, d.tcb);
    LiveFits(s, lo, hi, d.stack);
    assert NotInBlocks(c, d, head) && NotInBlocks(c, d, head + 4);
    RepresentsFrame(m, m', head, s);
  }

  lemma {:induction false} PrivateKeepsHeap(m: seq<Word>, m': seq<Word>, head: int, s: HeapState, lo: nat, hi: nat, c: Thread, d: Thread)
    requires Represents(m, head, s) && Compact(s, lo, hi) && (hi <= head || head + 8 <= lo)
    requires Owns(s, c) && Owns(s, d) && PrivateOnly(m, m', c, d)
    ensures Represents(m', head, s)
  {
    assert forall a :: NotInBlocks(c, d, a) ==> NotPrivate(c, d, a);
    BlocksKeepHeap(m, m', head, s, lo, hi, c, d);
  }

  /** No private word is a word of the queue. */
  lemma {:induction false} PrivateNoLink(s: HeapState, lo: nat, hi: nat, ts: map<nat, Thread>, c: nat, t: nat, a: int)
    requires Compact(s, lo, hi) && Owned(s, ts) && c in ts && t in ts
    requires t + NODE <= a < t + THREAD_BYTES
    ensures !Private(ts[c], a)
  {
    if Private(ts[c], a) {
      OwnPrivate(s, lo, hi, ts[c], a);
      if c != t {
        assert NoShare(ts[c], ts[t]);
        PrivateApart(s, lo, hi, ts[c], ts[t], a);
      }
    }
  }

  lemma {:induction false} PrivateKeepsQueue(m: seq<Word>, m': seq<Word>, rq: int, head: int, s: HeapState, lo: nat, hi: nat,
                          ts: map<nat, Thread>, q: seq<nat>, c: nat, d: nat)
    requires Compact(s, lo, hi) && Owned(s, ts) && QueueHeadFits(|m|, rq, head, lo, hi)
    requires Linked(m, QueueRing(rq, q)) && forall t :: t in q ==> t in ts
    requires c in ts && d in ts && PrivateOnly(m, m', ts[c], ts[d])
    ensures Linked(m', QueueRing(rq, q))
  {
    var ring := QueueRing(rq, q);
    forall i | 0 <= i < |ring| ensures m'[ring[i]] == m[ring[i]] && m'[ring[i] + 4] == m[ring[i] + 4] {
      forall a | a == ring[i] || a == ring[i] + 4 ensures m'[a] == m[a] {
        if i > 0 {
          assert q[i - 1] in q;
          PrivateNoLink(s, lo, hi, ts, c, q[i - 1], a);
          PrivateNoLink(s, lo, hi, ts, d, q[i - 1], a);
        } else {
          if Private(ts[c], a) { OwnPrivate(s, lo, hi, ts[c], a); }
          if Private(ts[d], a) { OwnPrivate(s, lo, hi, ts[d], a); }
        }
        assert IsNode(m, ring[i]) && NotPrivate(ts[c], ts[d], a);
      }
    }
    LinkedFrame(m, m', ring);
  }

  /** Other threads' structs and stacks are as they were. */
  lemma {:induction false} PrivateKeepsThread(m: seq<Word>, m': seq<Word>, h: HeapState, lo: nat, hi: nat,
                           c: Thread, d: Thread, u: Thread, s: Scheduler.Sched, s': Scheduler.Sched, threadMain: Word)
    requires Compact(h, lo, hi) && Owns(h, c) && Owns(h, d) && Owns(h, u) && NoShare(c, u) && NoShare(d, u)
    requires PrivateOnly(m, m', c, d) && ThreadHolds(m, u, s, threadMain)
    requires (u.Id() in s'.ready <==> u.Id() in s.ready) && (Unstarted(s', u.Id()) ==> Unstarted(s, u.Id()))
    ensures ThreadHolds(m', u, s', threadMain)
  {
    forall a | Private(u, a) && a < |m| ensures m'[a] == m[a] {
      if Private(c, a) { PrivateApart(h, lo, hi, c, u, a); }
      if Private(d, a) { PrivateApart(h, lo, hi, d, u, a); }
      assert NotPrivate(c, d, a);
    }
  }

  // ---------- Queue links ----------

  /** Only the queue's head and list nodes of threads changed. */
  ghost predicate LinksOnly(m: seq<Word>, m': seq<Word>, rq: int, ts: map<nat, Thread>) {
    |m'| == |m| &&
    forall a {:trigger NoLink(rq, ts, a)} :: 0 <= a < |m| && NoLink(rq, ts, a) ==> m'[a] == m[a]
  }

  ghost predicate NoLink(rq: int, ts: map<nat, Thread>, a: int) {
    !(rq <= a < rq + 8) && forall t :: t in ts ==> !InNode(t, a)
  }

  ghost predicate InNode(t: nat, a: int) {
    t + NODE <= a < t + THREAD_BYTES
  }

  ghost predicate LinkNode(rq: int, ts: map<nat, Thread>, n: int) {
    n == rq || (0 <= n - NODE && n - NODE in ts)
  }

  lemma {:induction false} RelinkLinks(m: seq<Word>, m': seq<Word>, rq: int, ts: map<nat, Thread>, n: int, p: int, q: int)
    requires SameBut(m, m', n, n + 4, p, q + 4)
    requires LinkNode(rq, ts, n) && LinkNode(rq, ts, p) && LinkNode(rq, ts, q)
    ensures LinksOnly(m, m', rq, ts)
  {
    forall a | 0 <= a < |m| && NoLink(rq, ts, a) ensures m'[a] == m[a] {
      assert n != rq ==> !InNode(n - NODE, a);
      assert p != rq ==> !InNode(p - NODE, a);
      assert q != rq ==> !InNode(q - NODE, a);
    }
  }

  lemma {:induction false} LinksKeepHeap(m: seq<Word>, m': seq<Word>, head: int, s: HeapState, lo: nat, hi: nat, rq: int, ts: map<nat, Thread>)
    requires Represents(m, head, s) && Compact(s, lo, hi) && (hi <= head || head + 8 <= lo)
    requires Owned(s, ts) && QueueHeadFits(|m|, rq, head, lo, hi) && LinksOnly(m, m', rq, ts)
    ensures Represents(m', head, s)
  {
    forall b | Has(s, b) ensures SameHeader(m, m', b) {
      assert HeaderFits(|m|, head, b);
      forall a | b.addr <= a < b.addr + HEADER ensures m'[a] == m[a] {
        HeaderNoLink(s, lo, hi, b, ts, a);
        assert !(rq <= a < rq + 8) by { assert Tiled(s, lo, hi); TiledGeometry(s, lo, hi); }
        assert NoLink(rq, ts, a);
      }
    }
    forall a | head <= a < head + 8 ensures m'[a] == m[a] {
      forall t | t in ts ensures !InNode(t, a) {
        LiveFits(s, lo, hi, ts[t].tcb);
      }
      assert NoLink(rq, ts, a);
    }
    RepresentsFrame(m, m', head, s);
  }

  lemma {:induction false} HeaderNoLink(s: HeapState, lo: nat, hi: nat, b: Block, ts: map<nat, Thread>, a: int)
    requires Compact(s, lo, hi) && Has(s, b) && Owned(s, ts) && b.addr <= a < b.addr + HEADER
    ensures forall t :: t in ts ==> !InNode(t, a)
  {
    assert Tiled(s, lo, hi);
    TiledGeometry(s, lo, hi);
    forall t | t in ts ensures !InNode(t, a) {
      var c := ts[t].tcb;
      assert Has(s, c);
      assert b == c || Apart(b, c) by { if b in s.free { assert Apart(b, c); } }
    }
  }

  lemma {:induction false} LinksKeepThread(m: seq<Word>, m': seq<Word>, h: HeapState, lo: nat, hi: nat, rq: int, head: int, ts: map<nat, Thread>,
                        t: nat, s: Scheduler.Sched, s': Scheduler.Sched, threadMain: Word)
    requires Compact(h, lo, hi) && Owned(h, ts) && t in ts && QueueHeadFits(|m|, rq, head, lo, hi)
    requires LinksOnly(m, m', rq, ts) && ThreadHolds(m, ts[t], s, threadMain)
    requires (t in s'.ready <==> t in s.ready) && (Unstarted(s', t) ==> Unstarted(s, t))
    ensures ThreadHolds(m', ts[t], s', threadMain)
  {
    forall a | Private(ts[t], a) && a < |m| ensures m'[a] == m[a] {
      OwnPrivate(h, lo, hi, ts[t], a);
      forall u | u in ts ensures !InNode(u, a) {
        if InNode(u, a) { PrivateNoLink(h, lo, hi, ts, t, u, a); }
      }
      assert NoLink(rq, ts, a);
    }
  }

  /** The fields of a struct that are written at creation only: id, name and stack size. */
  ghost predicate Labelled(m: seq<Word>, t: nat, id: Word, name: Word) {
    t + 28 <= |m| && m[t] == id && m[t + 4] == name && m[t + 12] == 4096
  }

  lemma {:induction false} LinksKeepLabel(m: seq<Word>, m': seq<Word>, h: HeapState, lo: nat, hi: nat, rq: int, head: int, ts: map<nat, Thread>,
                        t: nat, id: Word, name: Word)
    requires Compact(h, lo, hi) && Owned(h, ts) && t in ts && QueueHeadFits(|m|, rq, head, lo, hi)
    requires LinksOnly(m, m', rq, ts) && Labelled(m, t, id, name)
    ensures Labelled(m', t, id, name)
  {
    forall a | t <= a < t + NODE ensures m'[a] == m[a] {
      OwnPrivate(h, lo, hi, ts[t], a);
      forall u | u in ts ensures !InNode(u, a) {
        if InNode(u, a) { PrivateNoLink(h, lo, hi, ts, t, u, a); }
      }
      assert NoLink(rq, ts, a);
    }
  }

  // ---------- Heap calls ----------

  /** A heap call that keeps live payloads keeps all threads and the queue. */
  lemma {:induction false} HeapKeepsThread(m: seq<Word>, m': seq<Word>, live: set<Block>, u: Thread, s: Scheduler.Sched, threadMain: Word)
    requires PayloadsKept(m, m', live) && u.tcb in live && u.stack in live
    requires THREAD_BYTES <= u.tcb.size && THREAD_DEFAULT_STACK_SIZE <= u.stack.size
    requires ThreadHolds(m, u, s, threadMain)
    ensures ThreadHolds(m', u, s, threadMain)
  {
    assert InPayload(u.tcb, u.Id() + READY) && InPayload(u.tcb, u.Id() + STACK_PTR);
    if Unstarted(s, u.Id()) {
      var sp := u.Top() - INITIAL_FRAME;
      forall a | sp <= a < sp + INITIAL_FRAME ensures m'[a] == m[a] {
        assert InPayload(u.stack, a);
      }
    }
  }

  lemma {:induction false} HeapKeepsQueue(m: seq<Word>, m': seq<Word>, rq: int, head: int, lo: nat, hi: nat, live: set<Block>,
                       ts: map<nat, Thread>, q: seq<nat>)
    requires PayloadsKept(m, m', live) && ArenaOnly(m, m', head, lo, hi) && QueueHeadFits(|m|, rq, head, lo, hi)
    requires Linked(m, QueueRing(rq, q))
    requires forall t :: t in q ==> t in ts && ts[t].Id() == t && ts[t].tcb in live && THREAD_BYTES <= ts[t].tcb.size
    ensures Linked(m', QueueRing(rq, q))
  {
    var ring := QueueRing(rq, q);
    forall i | 0 <= i < |ring| ensures m'[ring[i]] == m[ring[i]] && m'[ring[i] + 4] == m[ring[i] + 4] {
      if i > 0 {
        var t := q[i - 1];
        assert t in q;
        assert InPayload(ts[t].tcb, ring[i]) && InPayload(ts[t].tcb, ring[i] + 4);
        assert IsNode(m, ring[i]);
      } else {
        assert Elsewhere(head, lo, hi, rq) && Elsewhere(head, lo, hi, rq + 4);
      }
    }
    LinkedFrame(m, m', ring);
  }

  /** What a heap call keeps: the payloads of `live` blocks, and memory outside the arena. */
  ghost predicate Kept(m: seq<Word>, m': seq<Word>, live: set<Block>, head: int, lo: nat, hi: nat) {
    PayloadsKept(m, m', live) && ArenaOnly(m, m', head, lo, hi)
  }

  lemma {:induction false} KeptTrans(m0: seq<Word>, m1: seq<Word>, m2: seq<Word>, live: set<Block>, live1: set<Block>, head: int, lo: nat, hi: nat)
    requires Kept(m0, m1, live, head, lo, hi) && Kept(m1, m2, live1, head, lo, hi) && live <= live1
    ensures Kept(m0, m2, live, head, lo, hi)
  {
    assert forall l :: l in live ==> l in live1;
  }

  /** Initialising a new thread in two new blocks counts as such a call. */
  lemma {:induction false} NewBlocksKept(m: seq<Word>, m': seq<Word>, s: HeapState, live: set<Block>, head: int, lo: nat, hi: nat, th: Thread)
    requires Compact(s, lo, hi) && Owns(s, th) && BlocksOnly(m, m', th, th)
    requires live <= s.live && th.tcb !in live && th.stack !in live
    ensures Kept(m, m', live, head, lo, hi)
  {
    forall l, a | l in live && InPayload(l, a) && a < |m| ensures m'[a] == m[a] {
      LiveApart(s, lo, hi, l, th.tcb);
      LiveApart(s, lo, hi, l, th.stack);
      assert NotInBlocks(th, th, a);
    }
    LiveFits(s, lo, hi, th.tcb);
    LiveFits(s, lo, hi, th.stack);
    forall a | 0 <= a < |m| && Elsewhere(head, lo, hi, a) ensures m'[a] == m[a] {
      assert NotInBlocks(th, th, a);
    }
  }

  lemma {:induction false} NewThreadFits(s: HeapState, lo: nat, hi: nat, th: Thread)
    requires Compact(s, lo, hi) && Owns(s, th)
    ensures th.Id() + THREAD_BYTES <= hi && th.Top() <= hi && th.Lo() % 4 == 0 && th.Id() % 4 == 0
    ensures th.Id() + THREAD_BYTES <= th.Lo() || th.Top() <= th.Id()
  {
    hide Compact;
    LiveFits(s, lo, hi, th.tcb);
    LiveFits(s, lo, hi, th.stack);
    LiveApart(s, lo, hi, th.tcb, th.stack);
  }

  // ---------- Creating a thread ----------

  /** A thread in two newly vended blocks joins the others. */
  lemma {:induction false} JoinOwned(h: HeapState, h': HeapState, lo: nat, hi: nat, ts: map<nat, Thread>, th: Thread)
    requires Owned(h, ts) && Compact(h', lo, hi) && h'.live == h.live + {th.tcb, th.stack}
    requires Owns(h', th) && th.tcb !in h.live && th.stack !in h.live
    ensures th.Id() !in ts && Owned(h', ts[th.Id() := th])
  {
    if th.Id() in ts {
      LiveApart(h', lo, hi, th.tcb, ts[th.Id()].tcb);
    }
    var ts' := ts[th.Id() := th];
    forall t | t in ts' ensures ts'[t].Id() == t && Owns(h', ts'[t]) {
    }
    forall t, u | t in ts' && u in ts' && t != u ensures NoShare(ts'[t], ts'[u]) {
      if t in ts && u in ts { assert NoShare(ts[t], ts[u]); }
    }
  }

  /** A heap call keeps everything about the threads that exist. */
  lemma {:induction false} HeapKeepsThreads(m: seq<Word>, m': seq<Word>, h: HeapState, rq: int, head: int, lo: nat, hi: nat,
                         ts: map<nat, Thread>, s: Scheduler.Sched, threadMain: Word)
    requires Kept(m, m', h.live, head, lo, hi) && QueueHeadFits(|m|, rq, head, lo, hi)
    requires Owned(h, ts) && ThreadsHold(m, rq, ts, s, threadMain)
    ensures ThreadsHold(m', rq, ts, s, threadMain)
  {
    forall t | t in ts ensures ThreadHolds(m', ts[t], s, threadMain) {
      HeapKeepsThread(m, m', h.live, ts[t], s, threadMain);
    }
    HeapKeepsQueue(m, m', rq, head, lo, hi, h.live, ts, s.queue);
  }

  /** No thread owns `b`. */
  ghost predicate Unowned(ts: map<nat, Thread>, b: Block) {
    forall t :: t in ts ==> ts[t].tcb != b && ts[t].stack != b
  }

  /** Writing in the payload of a live block changes nothing of the heap or of other blocks. */
  lemma {:induction false} BlockWrites(m: seq<Word>, m': seq<Word>, h: HeapState, head: int, lo: nat, hi: nat,
                                       b: Block, from: int, to: int)
    requires Represents(m, head, h) && Compact(h, lo, hi) && (hi <= head || head + 8 <= lo) && b in h.live
    requires Machine.SameOutside(m, m', from, to) && b.Payload() <= from && to <= b.End()
    ensures Represents(m', head, h) && Kept(m, m', h.live - {b}, head, lo, hi)
  {
    assert Tiled(h, lo, hi);
    TiledGeometry(h, lo, hi);
    assert Has(h, b);
    forall c | Has(h, c) ensures SameHeader(m, m', c) {
      assert c == b || Apart(c, b) by { if c in h.free { assert Apart(c, b); } }
      assert HeaderFits(|m|, head, c);
    }
    RepresentsFrame(m, m', head, h);
    forall l, a | l in h.live - {b} && InPayload(l, a) && a < |m| ensures m'[a] == m[a] {
      assert Has(h, l) && Apart(l, b);
    }
  }

  /** The node of a thread not in the queue can be linked into it. */
  lemma {:induction false} NodeApart(m: seq<Word>, h: HeapState, rq: int, head: int, lo: nat, hi: nat, ts: map<nat, Thread>, q: seq<nat>, t: nat)
    requires Owned(h, ts) && Compact(h, lo, hi) && QueueHeadFits(|m|, rq, head, lo, hi) && hi <= |m|
    requires t in ts && t !in q && forall u :: u in q ==> u in ts
    ensures IsNode(m, t + NODE)
    ensures forall k :: 0 <= k <= |q| ==> Separate(t + NODE, QueueRing(rq, q)[k])
  {
    hide Compact;
    LiveFits(h, lo, hi, ts[t].tcb);
    var ring := QueueRing(rq, q);
    forall k | 0 <= k <= |q| ensures Separate(t + NODE, ring[k]) {
      if k > 0 {
        var u := q[k - 1];
        assert u in q && NoShare(ts[t], ts[u]);
        LiveApart(h, lo, hi, ts[t].tcb, ts[u].tcb);
      }
    }
  }

  lemma {:induction false} RingAppend(rq: int, q: seq<nat>, t: nat)
    ensures QueueRing(rq, q) + [t + NODE] == QueueRing(rq, q + [t])
  {
  }

  lemma {:induction false} QueuedNodes(rq: int, ts: map<nat, Thread>, q: seq<nat>, k: nat)
    requires k <= |q| && forall u :: u in q ==> u in ts
    ensures LinkNode(rq, ts, QueueRing(rq, q)[k])
  {
    if k > 0 { assert q[k - 1] in q; }
  }

  /** Memory after a new thread was initialised and linked at the tail. */
  lemma {:induction false} CreatedHolds(m: seq<Word>, m': seq<Word>, h: HeapState, rq: int, head: int, lo: nat, hi: nat,
                     ts: map<nat, Thread>, th: Thread, s: Scheduler.Sched, threadMain: Word)
    requires Compact(h, lo, hi) && QueueHeadFits(|m|, rq, head, lo, hi)
    requires th.Id() !in ts && Owned(h, ts[th.Id() := th]) && ThreadsHold(m, rq, ts, s, threadMain)
    requires Scheduler.Enabled(s, Scheduler.Create(th.Id())) && hi <= |m|
    requires InitialFrame(m, th, threadMain) && m[th.Id() + READY] == 1
    requires LinksOnly(m, m', rq, ts[th.Id() := th]) && Linked(m', QueueRing(rq, s.queue + [th.Id()]))
    ensures ThreadsHold(m', rq, ts[th.Id() := th], Scheduler.Step(s, Scheduler.Create(th.Id())), threadMain)
  {
    var ts', s', i := ts[th.Id() := th], Scheduler.Step(s, Scheduler.Create(th.Id())), th.Id();
    forall t | t in ts' ensures ThreadHolds(m', ts'[t], s', threadMain) {
      LiveFits(h, lo, hi, ts'[t].tcb);
      if t == i {
        assert ThreadHolds(m, th, s', threadMain);
        LinksKeepThread(m, m', h, lo, hi, rq, head, ts', t, s', s', threadMain);
      } else {
        LinksKeepThread(m, m', h, lo, hi, rq, head, ts', t, s, s', threadMain);
      }
    }
  }

  // ---------- Switching ----------

  /** The stack that runs and the frame of the next thread do not interfere. */
  lemma {:induction false} SwitchIsSafe(m: seq<Word>, h: HeapState, lo: nat, hi: nat, c: Thread, d: Thread, r: Machine.Regs)
    requires Compact(h, lo, hi) && Owns(h, c) && Owns(h, d) && NoShare(c, d) && hi <= |m| < WRAP
    requires c.Lo() + Machine.IRQ_BYTES + Machine.SAVED_BYTES <= r.esp && r.esp + 12 <= c.Top() && Fits(|m|, c)
    requires m[r.esp + 4] == c.Id() + STACK_PTR && m[r.esp + 8] == d.Top() - INITIAL_FRAME
    ensures Machine.SwitchSafe(r, m, c.Lo(), d.Lo())
  {
    NewThreadFits(h, lo, hi, c);
    NewThreadFits(h, lo, hi, d);
    LiveApart(h, lo, hi, c.stack, d.stack);
    LiveApart(h, lo, hi, c.tcb, d.stack);
  }

  /** A switch writes only private words of the two threads, and not their ready flags. */
  lemma {:induction false} SwitchIsPrivate(m: seq<Word>, m': seq<Word>, h: HeapState, lo: nat, hi: nat, c: Thread, d: Thread, r: Machine.Regs, r': Machine.Regs)
    requires Compact(h, lo, hi) && Owns(h, c) && Owns(h, d) && NoShare(c, d) && hi <= |m| < WRAP
    requires r.esp + 12 <= c.Top() && c.Lo() + Machine.SAVED_BYTES <= r.esp && Fits(|m|, c) && Fits(|m|, d)
    requires m[r.esp + 4] == c.Id() + STACK_PTR && m[r.esp + 8] == d.Top() - INITIAL_FRAME
    requires Machine.Switched(r, m, c.Lo(), d.Lo(), r', m')
    ensures PrivateOnly(m, m', c, d) && |m'| == |m|
    ensures m'[c.Id() + READY] == m[c.Id() + READY] && m'[d.Id() + READY] == m[d.Id() + READY]
    ensures forall a :: d.Top() - INITIAL_FRAME + Machine.SAVED_BYTES <= a < d.Top() ==> m'[a] == m[a]
  {
    hide Compact, Machine.Restored, Machine.SavedAt;
    var sp := d.Top() - INITIAL_FRAME;
    NewThreadFits(h, lo, hi, c);
    NewThreadFits(h, lo, hi, d);
    LiveApart(h, lo, hi, c.stack, d.stack);
    LiveApart(h, lo, hi, c.tcb, d.stack);
    LiveApart(h, lo, hi, c.stack, d.tcb);
    LiveApart(h, lo, hi, c.tcb, d.tcb);
    forall a | 0 <= a < |m| && NotPrivate(c, d, a) ensures m'[a] == m[a] {
      assert Machine.Outside(a, c.Lo(), r.esp, d.Lo(), sp + Machine.SAVED_BYTES);
    }
    forall a | a == c.Id() + READY || a == d.Id() + READY || sp + Machine.SAVED_BYTES <= a < d.Top() ensures m'[a] == m[a] {
      assert Machine.Outside(a, c.Lo(), r.esp, d.Lo(), sp + Machine.SAVED_BYTES);
    }
  }

  /** A switch to a thread that waits for its first dispatch enters `thread_main`. */
  lemma {:induction false} SwitchEntersMain(m: seq<Word>, m': seq<Word>, c: Thread, d: Thread, r: Machine.Regs, r': Machine.Regs, threadMain: Word)
    requires r.esp + 12 <= |m| == |m'| < WRAP && m[r.esp + 8] == d.Top() - INITIAL_FRAME
    requires Machine.Switched(r, m, c.Lo(), d.Lo(), r', m')
    requires EntryFrame(m, d.Top() - INITIAL_FRAME, threadMain, d.fn, d.arg)
    requires forall a :: d.Top() - INITIAL_FRAME + Machine.SAVED_BYTES <= a < d.Top() ==> m'[a] == m[a]
    ensures EntersMain(r', m', threadMain, d.fn, d.arg) && r'.esp == d.Top() - 12
  {
    RestoreEntersMain(r, m, m', d.Top() - INITIAL_FRAME, threadMain, d.fn, d.arg);
  }

  /** Writing on one's own stack. */
  lemma {:induction false} StackWrites(m: seq<Word>, m': seq<Word>, h: HeapState, lo: nat, hi: nat, c: Thread, d: Thread,
                    from: int, to: int, threadMain: Word)
    requires Compact(h, lo, hi) && Owns(h, c) && Owns(h, d) && NoShare(c, d) && Fits(|m|, c) && Fits(|m|, d)
    requires Machine.SameOutside(m, m', from, to) && c.Lo() <= from && to <= c.Top()
    ensures PrivateOnly(m, m', c, c) && |m'| == |m|
    ensures m'[c.Id() + READY] == m[c.Id() + READY] && m'[d.Id() + READY] == m[d.Id() + READY]
    ensures InitialFrame(m, d, threadMain) ==> InitialFrame(m', d, threadMain)
  {
    LiveApart(h, lo, hi, c.stack, d.stack);
    LiveApart(h, lo, hi, c.stack, d.tcb);
    LiveApart(h, lo, hi, c.stack, c.tcb);
  }

  lemma {:induction false} PrivateTrans(m0: seq<Word>, m1: seq<Word>, m2: seq<Word>, c: Thread, d: Thread)
    requires PrivateOnly(m0, m1, c, c) && PrivateOnly(m1, m2, c, d)
    ensures PrivateOnly(m0, m2, c, d)
  {
    assert forall a :: NotPrivate(c, d, a) ==> NotPrivate(c, c, a);
  }

  /** Memory `m1` and registers `r` at the entry of the switch from `c` to `d`, called from
      memory `m`. */
  ghost predicate Called(m: seq<Word>, m1: seq<Word>, c: Thread, d: Thread, r: Machine.Regs, threadMain: Word) {
    && |m1| == |m| < WRAP && Fits(|m|, c) && Fits(|m|, d) && PrivateOnly(m, m1, c, c)
    && r.esp % 4 == 0 && c.Lo() % 4 == 0 && c.Lo() + Machine.IRQ_BYTES + Machine.SAVED_BYTES <= r.esp && r.esp + 12 <= c.Top()
    && m1[r.esp + 4] == c.Id() + STACK_PTR && m1[r.esp + 8] == d.Top() - INITIAL_FRAME
    && EntryFrame(m1, d.Top() - INITIAL_FRAME, threadMain, d.fn, d.arg)
    && m1[c.Id() + READY] == m[c.Id() + READY] && m1[d.Id() + READY] == m[d.Id() + READY]
  }

  lemma {:induction false} PushedIsCalled(m: seq<Word>, m1: seq<Word>, h: HeapState, lo: nat, hi: nat, c: Thread, d: Thread, r: Machine.Regs, threadMain: Word)
    requires Compact(h, lo, hi) && Owns(h, c) && Owns(h, d) && NoShare(c, d) && hi <= |m| < WRAP
    requires InitialFrame(m, d, threadMain) && Machine.SameOutside(m, m1, r.esp, r.esp + 12)
    requires r.esp % 4 == 0 && c.Lo() + Machine.IRQ_BYTES + Machine.SAVED_BYTES <= r.esp && r.esp + 12 <= c.Top()
    requires r.esp + 8 < |m1| && m1[r.esp + 4] == c.Id() + STACK_PTR && m1[r.esp + 8] == d.Top() - INITIAL_FRAME
    ensures Called(m, m1, c, d, r, threadMain) && Machine.SwitchSafe(r, m1, c.Lo(), d.Lo())
  {
    NewThreadFits(h, lo, hi, c);
    NewThreadFits(h, lo, hi, d);
    StackWrites(m, m1, h, lo, hi, c, d, r.esp, r.esp + 12, threadMain);
    SwitchIsSafe(m1, h, lo, hi, c, d, r);
  }

  /** Memory `m'` and registers `r'` once `d`, dispatched for the first time, has taken over
      from `c`. */
  ghost predicate TookOver(m: seq<Word>, m': seq<Word>, c: Thread, d: Thread, r': Machine.Regs, threadMain: Word) {
    && |m'| == |m| && Fits(|m|, c) && Fits(|m|, d) && PrivateOnly(m, m', c, d)
    && m'[c.Id() + READY] == m[c.Id() + READY] && m'[d.Id() + READY] == m[d.Id() + READY]
    && EntersMain(r', m', threadMain, d.fn, d.arg) && r'.esp == d.Top() - 12 && r'.esp % 4 == 0
  }

  lemma {:induction false} SwitchTakesOver(m: seq<Word>, m1: seq<Word>, m': seq<Word>, head: int, h: HeapState, lo: nat, hi: nat,
                        c: Thread, d: Thread, r: Machine.Regs, r': Machine.Regs, threadMain: Word)
    requires Represents(m, head, h) && Compact(h, lo, hi) && (hi <= head || head + 8 <= lo) && hi <= |m|
    requires Owns(h, c) && Owns(h, d) && NoShare(c, d)
    requires Called(m, m1, c, d, r, threadMain) && Machine.Switched(r, m1, c.Lo(), d.Lo(), r', m')
    ensures TookOver(m, m', c, d, r', threadMain) && Represents(m', head, h)
  {
    hide Compact, Represents, PrivateOnly, Owns, NoShare;
    SwitchIsPrivate(m1, m', h, lo, hi, c, d, r, r');
    SwitchEntersMain(m1, m', c, d, r, r', threadMain);
    PrivateTrans(m, m1, m', c, d);
    PrivateKeepsHeap(m, m', head, h, lo, hi, c, d);
    NewThreadFits(h, lo, hi, d);
  }

  /** Two threads switched: everything holds of the scheduler's next state, in which neither
      of the two is waiting for its first dispatch. */
  lemma {:induction false} SwitchedHold(m: seq<Word>, m': seq<Word>, h: HeapState, rq: int, head: int, lo: nat, hi: nat, ts: map<nat, Thread>,
                     c: nat, d: nat, s: Scheduler.Sched, s': Scheduler.Sched, threadMain: Word)
    requires Compact(h, lo, hi) && Owned(h, ts) && QueueHeadFits(|m|, rq, head, lo, hi) && hi <= |m|
    requires c in ts && d in ts && PrivateOnly(m, m', ts[c], ts[d])
    requires Fits(|m|, ts[c]) && Fits(|m|, ts[d]) && |m'| == |m| && c == ts[c].Id() && d == ts[d].Id()
    requires m'[c + READY] == m[c + READY] && m'[d + READY] == m[d + READY]
    requires PoppedHold(m, rq, ts, s, s'.queue, threadMain) && Dispatches(s, s', d) && !Unstarted(s', c)
    ensures ThreadsHold(m', rq, ts, s', threadMain)
  {
    forall t | t in ts ensures ThreadHolds(m', ts[t], s', threadMain) {
      if t != c && t != d {
        assert NoShare(ts[c], ts[t]) && NoShare(ts[d], ts[t]);
        PrivateKeepsThread(m, m', h, lo, hi, ts[c], ts[d], ts[t], s, s', threadMain);
      }
    }
    PrivateKeepsQueue(m, m', rq, head, h, lo, hi, ts, s'.queue, c, d);
  }

  /** Clearing the ready flag of a thread that is not waiting for its first dispatch. */
  lemma {:induction false} ExitedHold(m: seq<Word>, m': seq<Word>, h: HeapState, rq: int, head: int, lo: nat, hi: nat, ts: map<nat, Thread>,
                   c: nat, s: Scheduler.Sched, s': Scheduler.Sched, threadMain: Word)
    requires Compact(h, lo, hi) && Owned(h, ts) && QueueHeadFits(|m|, rq, head, lo, hi) && hi <= |m|
    requires ThreadsHold(m, rq, ts, s, threadMain) && c in ts && Fits(|m|, ts[c])
    requires SameButOne(m, m', c + READY) && m'[c + READY] == 0
    requires s'.ready == s.ready - {c} && s'.idle == s.idle && s'.created == s.created && s'.queue == s.queue && s'.current == s.current
    requires !Unstarted(s, c)
    ensures ThreadsHold(m', rq, ts, s', threadMain) && PrivateOnly(m, m', ts[c], ts[c])
  {
    var th := ts[c];
    assert th.Id() == c;
    forall a | 0 <= a < |m| && NotPrivate(th, th, a) ensures m'[a] == m[a] {
    }
    forall t | t in ts && t != c ensures ThreadHolds(m', ts[t], s', threadMain) {
      assert NoShare(th, ts[t]);
      PrivateKeepsThread(m, m', h, lo, hi, th, th, ts[t], s, s', threadMain);
    }
    PrivateKeepsQueue(m, m', rq, head, h, lo, hi, ts, s.queue, c, c);
  }

  /** Writing clear of the arena and of the two list heads keeps everything. */
  lemma {:induction false} ClearWritesHold(m: seq<Word>, m': seq<Word>, h: HeapState, rq: int, head: int, lo: nat, hi: nat, ts: map<nat, Thread>,
                        from: int, to: int, s: Scheduler.Sched, q: seq<nat>, threadMain: Word)
    requires Compact(h, lo, hi) && Owned(h, ts) && QueueHeadFits(|m|, rq, head, lo, hi) && hi <= |m|
    requires Represents(m, head, h) && (hi <= head || head + 8 <= lo)
    requires Machine.SameOutside(m, m', from, to) && ClearOf(from, to, rq, head, lo, hi)
    requires PoppedHold(m, rq, ts, s, q, threadMain) && forall t :: t in q ==> t in s.queue
    ensures Represents(m', head, h) && PoppedHold(m', rq, ts, s, q, threadMain)
  {
    assert Tiled(h, lo, hi);
    TiledGeometry(h, lo, hi);
    forall b | Has(h, b) ensures SameHeader(m, m', b) {
    }
    RepresentsFrame(m, m', head, h);
    forall l, a | l in h.live && InPayload(l, a) && a < |m| ensures m'[a] == m[a] {
      assert Has(h, l);
    }
    forall t | t in ts ensures ThreadHolds(m', ts[t], s, threadMain) {
      HeapKeepsThread(m, m', h.live, ts[t], s, threadMain);
    }
    var ring := QueueRing(rq, q);
    forall i | 0 <= i < |ring| ensures m'[ring[i]] == m[ring[i]] && m'[ring[i] + 4] == m[ring[i] + 4] {
      if i > 0 {
        assert q[i - 1] in q;
        LiveFits(h, lo, hi, ts[q[i - 1]].tcb);
      }
    }
    LinkedFrame(m, m', ring);
  }

  /** [from, to) meets neither the arena nor a list head. */
  ghost predicate ClearOf(from: int, to: int, rq: int, head: int, lo: nat, hi: nat) {
    (to <= lo || hi <= from) && (to <= rq || rq + 8 <= from) && (to <= head || head + 8 <= from)
  }

  /** Thread `d` writes on its own stack, and in `s'` it waits for no dispatch. */
  lemma {:induction false} OwnStackHold(m: seq<Word>, m': seq<Word>, h: HeapState, rq: int, head: int, lo: nat, hi: nat, ts: map<nat, Thread>,
                     d: nat, from: int, to: int, s: Scheduler.Sched, s': Scheduler.Sched, threadMain: Word)
    requires Compact(h, lo, hi) && Owned(h, ts) && QueueHeadFits(|m|, rq, head, lo, hi) && hi <= |m|
    requires Represents(m, head, h) && (hi <= head || head + 8 <= lo) && d in ts
    requires Machine.SameOutside(m, m', from, to) && ts[d].Lo() <= from && to <= ts[d].Top()
    requires PoppedHold(m, rq, ts, s, s'.queue, threadMain) && Dispatches(s, s', d)
    ensures Represents(m', head, h) && ThreadsHold(m', rq, ts, s', threadMain)
  {
    var th := ts[d];
    NewThreadFits(h, lo, hi, th);
    LiveApart(h, lo, hi, th.stack, th.tcb);
    forall a | 0 <= a < |m| && NotPrivate(th, th, a) ensures m'[a] == m[a] {
    }
    PrivateKeepsHeap(m, m', head, h, lo, hi, th, th);
    SwitchedHold(m, m', h, rq, head, lo, hi, ts, d, d, s, s', threadMain);
  }

  /** The first thread `d` is loaded from its initial frame. */
  lemma {:induction false} FirstLoaded(m: seq<Word>, m': seq<Word>, h: HeapState, rq: int, head: int, lo: nat, hi: nat, ts: map<nat, Thread>,
                                       d: nat, r: Machine.Regs, r': Machine.Regs, s: Scheduler.Sched, s': Scheduler.Sched, threadMain: Word)
    requires Compact(h, lo, hi) && Owned(h, ts) && QueueHeadFits(|m|, rq, head, lo, hi) && hi <= |m| < WRAP
    requires Represents(m, head, h) && (hi <= head || head + 8 <= lo) && d in ts && Fits(|m|, ts[d])
    requires PoppedHold(m, rq, ts, s, s'.queue, threadMain) && Dispatches(s, s', d) && Unstarted(s, d)
    requires r' == Machine.Restored(r, m, ts[d].Top() - INITIAL_FRAME)
    requires Machine.SameOutside(m, m', ts[d].Lo(), ts[d].Top() - INITIAL_FRAME + Machine.SAVED_BYTES)
    ensures Represents(m', head, h) && ThreadsHold(m', rq, ts, s', threadMain)
    ensures EntersMain(r', m', threadMain, ts[d].fn, ts[d].arg) && r'.esp == ts[d].Top() - 12
  {
    hide Linked, QueueRing, Dispatches, ThreadsHold, Represents;
    var th := ts[d];
    var sp := th.Top() - INITIAL_FRAME;
    assert ThreadHolds(m, th, s, threadMain);
    RestoreEntersMain(r, m, m', sp, threadMain, th.fn, th.arg);
    OwnStackHold(m, m', h, rq, head, lo, hi, ts, d, th.Lo(), sp + Machine.SAVED_BYTES, s, s', threadMain);
  }

  /** The first node of the queue was deleted. */
  lemma {:induction false} PoppedLinks(m: seq<Word>, m': seq<Word>, head: int, h: HeapState, lo: nat, hi: nat, rq: int, ts: map<nat, Thread>, q: seq<nat>)
    requires Represents(m, head, h) && Compact(h, lo, hi) && (hi <= head || head + 8 <= lo)
    requires Owned(h, ts) && QueueHeadFits(|m|, rq, head, lo, hi)
    requires q != [] && forall t :: t in q ==> t in ts
    requires var ring := QueueRing(rq, q);
      Linked(m', Deleted(ring, 1)) && SameBut(m, m', ring[1], ring[1] + 4, rq, Succ(ring, 1) + 4)
    ensures Represents(m', head, h) && LinksOnly(m, m', rq, ts) && Linked(m', QueueRing(rq, q[1..]))
  {
    hide Represents, Compact, Owned, QueueHeadFits, Linked, LinksOnly;
    var ring := QueueRing(rq, q);
    assert Deleted(ring, 1) == QueueRing(rq, q[1..]);
    QueuedNodes(rq, ts, q, 1);
    QueuedNodes(rq, ts, q, if |q| > 1 then 2 else 0);
    RelinkLinks(m, m', rq, ts, ring[1], rq, Succ(ring, 1));
    LinksKeepHeap(m, m', head, h, lo, hi, rq, ts);
  }

  // ---------- Threads as coroutines ----------

  /** A thread as `Coroutines` sees it: its stack and the slot for its stack pointer. */
  function CoroOf(th: Thread): Coroutines.Coro {
    Coroutines.Coro(th.Lo(), th.Top(), th.Id() + STACK_PTR)
  }

  /** Threads that own blocks of one heap have stacks and slots apart, as the results on whole
      runs demand. */
  lemma {:induction false} OwnedAreLaid(h: HeapState, lo: nat, hi: nat, ths: seq<Thread>, len: nat)
    requires Compact(h, lo, hi) && hi <= len < WRAP
    requires forall k :: 0 <= k < |ths| ==> Owns(h, ths[k])
    requires forall j, k {:trigger NoShare(ths[j], ths[k])} :: 0 <= j < |ths| && 0 <= k < |ths| && j != k ==> NoShare(ths[j], ths[k])
    ensures Coroutines.Laid(seq(|ths|, k requires 0 <= k < |ths| => CoroOf(ths[k])), len)
  {
    var cs := seq(|ths|, k requires 0 <= k < |ths| => CoroOf(ths[k]));
    forall k | 0 <= k < |cs| ensures Coroutines.CoroFits(cs[k], len) && !(cs[k].lo <= cs[k].slot < cs[k].top) {
      LiveFits(h, lo, hi, ths[k].tcb);
      LiveFits(h, lo, hi, ths[k].stack);
      LiveApart(h, lo, hi, ths[k].tcb, ths[k].stack);
    }
    forall j, k | 0 <= j < |cs| && 0 <= k < |cs| && j != k ensures Coroutines.Foreign(cs[j], cs[k]) {
      assert NoShare(ths[j], ths[k]);
      LiveApart(h, lo, hi, ths[j].stack, ths[k].stack);
      LiveApart(h, lo, hi, ths[j].tcb, ths[k].tcb);
      LiveApart(h, lo, hi, ths[j].tcb, ths[k].stack);
      LiveApart(h, lo, hi, ths[j].stack, ths[k].tcb);
    }
  }

  /** A thread that waits for its first dispatch is suspended like any other. */
  lemma {:induction false} InitialIsParked(h: HeapState, lo: nat, hi: nat, m: seq<Word>, th: Thread, threadMain: Word)
    requires Compact(h, lo, hi) && hi <= |m| && Owns(h, th) && InitialFrame(m, th, threadMain)
    ensures Coroutines.Parked(CoroOf(th), m)
  {
    LiveFits(h, lo, hi, th.stack);
  }
}
