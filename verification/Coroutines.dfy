/** Whole runs of context switches among threads with disjoint stacks: what was suspended is
    found intact when it is resumed. */
module Coroutines {
  import opened Words
  import opened Machine

  /** A thread by its stack [lo, top) and the address of the slot for its stack pointer. */
  datatype Coro = Coro(lo: nat, top: nat, slot: nat)

  ghost predicate CoroFits(c: Coro, len: nat) {
    c.lo % 4 == 0 && c.top % 4 == 0 && c.slot % 4 == 0 && c.lo <= c.top <= len && c.slot < len
  }

  ghost predicate Foreign(c: Coro, d: Coro) {
    && (c.top <= d.lo || d.top <= c.lo) && c.slot != d.slot
    && !(c.lo <= d.slot < c.top) && !(d.lo <= c.slot < d.top)
  }

  /** Stacks and slots are aligned, in memory and pairwise apart. */
  ghost predicate Laid(cs: seq<Coro>, len: nat) {
    && len < WRAP
    && (forall k :: 0 <= k < |cs| ==> CoroFits(cs[k], len) && !(cs[k].lo <= cs[k].slot < cs[k].top))
    && (forall j, k {:trigger Foreign(cs[j], cs[k])} :: 0 <= j < |cs| && 0 <= k < |cs| && j != k ==> Foreign(cs[j], cs[k]))
  }

  /** The threads that exist are `born`, one of them runs. */
  datatype World = World(r: Regs, m: seq<Word>, cur: nat, born: set<nat>)

  datatype Event = Work | Spawn(k: nat) | SwitchTo(k: nat)

  /** A suspended thread's saved stack pointer leaves room for a frame above it and for an
      interrupt below it. */
  ghost predicate Parked(c: Coro, m: seq<Word>) {
    && c.slot < |m| && m[c.slot] % 4 == 0
    && c.lo + IRQ_BYTES <= m[c.slot] && m[c.slot] + RESTORE_BYTES <= c.top
  }

  /** The stack and the slot of `c` are the same in both memories. */
  ghost predicate Untouched(c: Coro, m: seq<Word>, m': seq<Word>) {
    && |m'| == |m| && c.top <= |m| && c.slot < |m| && m'[c.slot] == m[c.slot]
    && forall a :: c.lo <= a < c.top ==> m'[a] == m[a]
  }

  /** Every born thread but `cur` and `next` keeps its stack and slot. */
  ghost predicate OthersUntouched(cs: seq<Coro>, born: set<nat>, cur: nat, next: nat, m: seq<Word>, m': seq<Word>) {
    |m'| == |m| &&
    forall k {:trigger Untouched(cs[k], m, m')} :: k in born && k != cur && k != next && k < |cs| ==> Untouched(cs[k], m, m')
  }

  /** The running thread calls `thread_context_switch_asm` for `k`: its return address and the
      two arguments are on its stack, which has room for the saved registers and an IRQ. */
  ghost predicate Calls(c: Coro, d: Coro, r: Regs, m: seq<Word>) {
    && r.esp % 4 == 0 && c.lo + IRQ_BYTES + SAVED_BYTES <= r.esp && r.esp + 12 <= c.top <= |m| < WRAP
    && d.slot < |m| && m[r.esp + 4] == c.slot && m[r.esp + 8] == m[d.slot]
  }

  /** A step: the running thread computes (interrupts included) without touching others'
      stacks and slots; it sets up the stack of a new thread; or it switches. */
  ghost predicate Step(cs: seq<Coro>, w: World, e: Event, w': World) {
    && w.cur in w.born && |w'.m| == |w.m|
    && match e {
         case Work => w'.cur == w.cur && w'.born == w.born && OthersUntouched(cs, w.born, w.cur, w.cur, w.m, w'.m)
         case Spawn(k) =>
           k < |cs| && k !in w.born && w'.cur == w.cur && w'.born == w.born + {k} &&
           OthersUntouched(cs, w.born, w.cur, w.cur, w.m, w'.m) && Parked(cs[k], w'.m)
         case SwitchTo(k) =>
           k < |cs| && w.cur < |cs| && k in w.born && k != w.cur && w'.cur == k && w'.born == w.born &&
           Calls(cs[w.cur], cs[k], w.r, w.m) &&
           (Parked(cs[k], w.m) ==> Switched(w.r, w.m, cs[w.cur].lo, cs[k].lo, w'.r, w'.m))
       }
  }

  ghost predicate StepAt(cs: seq<Coro>, ws: seq<World>, es: seq<Event>, n: nat) {
    n < |es| && n + 1 < |ws| && Step(cs, ws[n], es[n], ws[n + 1])
  }

  ghost predicate IsRun(cs: seq<Coro>, ws: seq<World>, es: seq<Event>) {
    && |ws| == |es| + 1 && Laid(cs, |ws[0].m|)
    && (forall n {:trigger StepAt(cs, ws, es, n)} :: 0 <= n < |es| ==> StepAt(cs, ws, es, n))
    && AllParked(cs, ws[0])
  }

  /** All born threads but the running one are properly suspended. */
  ghost predicate AllParked(cs: seq<Coro>, w: World) {
    w.cur in w.born &&
    forall k {:trigger Parked(cs[k], w.m)} :: k in w.born ==> k < |cs| && (k != w.cur ==> Parked(cs[k], w.m))
  }

  // ---------- One step ----------

  /** A switch between two threads touches no third one. */
  lemma {:induction false} SwitchSpares(cs: seq<Coro>, w: World, k: nat, w': World, j: nat)
    requires Laid(cs, |w.m|) && w.cur < |cs| && k < |cs| && j < |cs| && j != w.cur && j != k && k != w.cur
    requires Calls(cs[w.cur], cs[k], w.r, w.m) && Parked(cs[k], w.m)
    requires Switched(w.r, w.m, cs[w.cur].lo, cs[k].lo, w'.r, w'.m)
    ensures Untouched(cs[j], w.m, w'.m)
  {
    assert Foreign(cs[j], cs[w.cur]) && Foreign(cs[j], cs[k]);
    var c, d := cs[w.cur], cs[k];
    forall a | 0 <= a < |w.m| && (cs[j].lo <= a < cs[j].top || a == cs[j].slot) ensures w'.m[a] == w.m[a] {
      assert Outside(a, c.lo, w.r.esp, d.lo, w.m[d.slot] + SAVED_BYTES);
    }
  }

  lemma {:induction false} StepParks(cs: seq<Coro>, w: World, e: Event, w': World)
    requires Laid(cs, |w.m|) && AllParked(cs, w) && Step(cs, w, e, w')
    ensures AllParked(cs, w')
    ensures OthersUntouched(cs, w.born, w.cur, w'.cur, w.m, w'.m)
  {
    forall j | j in w.born && j != w.cur && j != w'.cur && j < |cs| ensures Untouched(cs[j], w.m, w'.m) {
      if e.SwitchTo? {
        assert Parked(cs[e.k], w.m);
        SwitchSpares(cs, w, e.k, w', j);
      }
    }
    forall j | j in w'.born ensures j < |cs| && (j != w'.cur ==> Parked(cs[j], w'.m)) {
      if j in w.born {
        assert j < |cs| && (j != w.cur ==> Parked(cs[j], w.m)) by { assert w.cur != j || j < |cs|; }
        if j != w'.cur && j != w.cur { assert Untouched(cs[j], w.m, w'.m); }
      }
    }
  }

  /** A step that calls the switch meets everything `thread_context_switch_asm` demands. */
  lemma {:induction false} CallIsSafe(cs: seq<Coro>, w: World, k: nat)
    requires Laid(cs, |w.m|) && w.cur < |cs| && k < |cs| && k != w.cur
    requires Calls(cs[w.cur], cs[k], w.r, w.m) && Parked(cs[k], w.m)
    ensures SwitchSafe(w.r, w.m, cs[w.cur].lo, cs[k].lo)
  {
    assert Foreign(cs[w.cur], cs[k]);
  }

  // ---------- Whole runs ----------

  lemma {:induction false} RunParks(cs: seq<Coro>, ws: seq<World>, es: seq<Event>, n: nat)
    requires IsRun(cs, ws, es) && n <= |es|
    ensures AllParked(cs, ws[n]) && |ws[n].m| == |ws[0].m|
  {
    if n > 0 {
      RunParks(cs, ws, es, n - 1);
      assert StepAt(cs, ws, es, n - 1);
      StepParks(cs, ws[n - 1], es[n - 1], ws[n]);
    }
  }

  /** Memory `m'` holds what a thread with registers `r` left on its stack when it called the
      switch in memory `m`. */
  ghost predicate Holds(c: Coro, r: Regs, m: seq<Word>, m': seq<Word>) {
    && SAVED_BYTES <= r.esp && r.esp + 12 <= c.top <= |m| == |m'| && c.slot < |m|
    && m'[c.slot] == r.esp - SAVED_BYTES && SavedAt(m', r.esp - SAVED_BYTES, r)
    && forall a :: r.esp <= a < c.top ==> m'[a] == m[a]
  }

  lemma {:induction false} SwitchOutHolds(cs: seq<Coro>, w: World, k: nat, w': World)
    requires Laid(cs, |w.m|) && AllParked(cs, w) && Step(cs, w, SwitchTo(k), w')
    ensures Holds(cs[w.cur], w.r, w.m, w'.m)
  {
    assert Parked(cs[k], w.m);
    assert Foreign(cs[w.cur], cs[k]);
    var c, d := cs[w.cur], cs[k];
    forall a | w.r.esp <= a < c.top ensures w'.m[a] == w.m[a] {
      assert Outside(a, c.lo, w.r.esp, d.lo, w.m[d.slot] + SAVED_BYTES);
    }
  }

  lemma {:induction false} UntouchedHolds(c: Coro, r: Regs, m: seq<Word>, m1: seq<Word>, m2: seq<Word>)
    requires Holds(c, r, m, m1) && Untouched(c, m1, m2) && c.lo <= r.esp - SAVED_BYTES
    ensures Holds(c, r, m, m2)
  {
  }

  /** While a thread is suspended, nothing in its saved frame or above it changes. */
  lemma {:induction false} SuspendedHolds(cs: seq<Coro>, ws: seq<World>, es: seq<Event>, i: nat, n: nat)
    requires IsRun(cs, ws, es) && i < n <= |es| && es[i].SwitchTo?
    requires forall t :: i < t <= n ==> ws[t].cur != ws[i].cur
    ensures ws[i].cur < |cs| && ws[i].cur in ws[n].born && cs[ws[i].cur].lo + IRQ_BYTES + SAVED_BYTES <= ws[i].r.esp
    ensures Holds(cs[ws[i].cur], ws[i].r, ws[i].m, ws[n].m)
    decreases n
  {
    RunParks(cs, ws, es, n - 1);
    assert StepAt(cs, ws, es, n - 1);
    if n == i + 1 {
      SwitchOutHolds(cs, ws[i], es[i].k, ws[n]);
    } else {
      var k := ws[i].cur;
      SuspendedHolds(cs, ws, es, i, n - 1);
      StepParks(cs, ws[n - 1], es[n - 1], ws[n]);
      assert Untouched(cs[k], ws[n - 1].m, ws[n].m);
      UntouchedHolds(cs[k], ws[i].r, ws[i].m, ws[n - 1].m, ws[n].m);
    }
  }

  /** Coroutine correctness over any run: a thread that calls the switch at step `i` and is
      next resumed by step `j` - 1 returns to its own call site with the registers it had,
      `esp` just past the return address, and its stack from there up as it was. */
  lemma {:induction false} Resumes(cs: seq<Coro>, ws: seq<World>, es: seq<Event>, i: nat, j: nat)
    requires IsRun(cs, ws, es) && i + 1 < j <= |es| && es[i].SwitchTo?
    requires es[j - 1] == SwitchTo(ws[i].cur)
    requires forall t :: i < t < j ==> ws[t].cur != ws[i].cur
    ensures ws[i].cur < |cs| && ws[i].r.esp + 12 <= cs[ws[i].cur].top <= |ws[i].m| == |ws[j].m|
    ensures var r, r' := ws[i].r, ws[j].r;
            && r'.ebp == r.ebp && r'.ebx == r.ebx && r'.edi == r.edi && r'.esi == r.esi
            && r'.eip == ws[i].m[r.esp] && r'.esp == r.esp + 4
            && forall a :: r.esp <= a < cs[ws[i].cur].top ==> ws[j].m[a] == ws[i].m[a]
  {
    var k, w, w' := ws[i].cur, ws[j - 1], ws[j];
    SuspendedHolds(cs, ws, es, i, j - 1);
    RunParks(cs, ws, es, j - 1);
    assert StepAt(cs, ws, es, j - 1);
    assert Parked(cs[k], w.m);
    assert Foreign(cs[k], cs[w.cur]);
    var c, d := cs[w.cur], cs[k];
    forall a | ws[i].r.esp <= a < d.top ensures w'.m[a] == w.m[a] {
      assert Outside(a, c.lo, w.r.esp, d.lo, w.m[d.slot] + SAVED_BYTES);
    }
  }
}
