/** The coalescing pass as written adds `sizeof(*b)`, four bytes more than the header it
    absorbs.  These results say exactly what that does, and exactly when it does no harm. */
module HeapDrift {
  import opened Words
  import opened HeapSpec
  import opened HeapTiling
  import opened HeapHistory

  // ---------- The bytes a pass accounts for ----------

  function Total(free: seq<Block>): nat {
    if free == [] then 0 else free[0].Extent() + Total(free[1..])
  }

  lemma {:induction false} TotalConcat(a: seq<Block>, b: seq<Block>)
    ensures Total(a + b) == Total(a) + Total(b)
  {
    if a == [] {
      assert a + b == b;
    } else {
      assert (a + b)[1..] == a[1..] + b;
      TotalConcat(a[1..], b);
    }
  }

  /** Each merge adds `overhead` - HEADER bytes that no block had; `q` counts 32-bit wraps. */
  lemma {:induction false} MergeDrift(lb: Block, rest: seq<Block>, overhead: nat) returns (q: nat)
    ensures |DefragFrom(lb, rest, overhead)| <= 1 + |rest|
    ensures Total(DefragFrom(lb, rest, overhead)) + WRAP * q ==
            lb.Extent() + Total(rest) + (overhead - HEADER) * (1 + |rest| - |DefragFrom(lb, rest, overhead)|)
    decreases |rest|
  {
    if rest == [] {
      q := 0;
      assert [lb][1..] == [];
    } else if Touches(lb, rest[0]) {
      var sum := lb.size + overhead + rest[0].size;
      q := MergeDrift(Merged(lb, rest[0], overhead), rest[1..], overhead);
      var merges := |rest| - |DefragFrom(lb, rest, overhead)|;
      assert (overhead - HEADER) * (1 + merges) == (overhead - HEADER) * merges + overhead - HEADER;
      q := q + sum / WRAP;
    } else {
      q := MergeDrift(rest[0], rest[1..], overhead);
      var tail := DefragFrom(rest[0], rest[1..], overhead);
      assert ([lb] + tail)[1..] == tail;
    }
  }

  lemma {:induction false} PassDrift(free: seq<Block>, overhead: nat) returns (q: nat)
    ensures |Defrag(free, overhead)| <= |free|
    ensures Total(Defrag(free, overhead)) + WRAP * q ==
            Total(free) + (overhead - HEADER) * (|free| - |Defrag(free, overhead)|)
  {
    q := 0;
    if free != [] {
      q := MergeDrift(free[0], free[1..], overhead);
    }
  }

  /** Blocks merged by the call as written, bytes it takes off the free list, bytes it
      gives back. */
  function Merges(s: HeapState, c: Call): int {
    if c.FreeCall? then |Insert(s.free, c.b)| - |Defrag(Insert(s.free, c.b), NODE_SIZE)| else 0
  }

  function Vended(s: HeapState, c: Call): nat {
    if c.MallocCall? && Malloc(s, c.n).0.Some? then Malloc(s, c.n).0.value.Extent() else 0
  }

  function Returned(c: Call): nat {
    if c.FreeCall? then c.b.Extent() else 0
  }

  function AllMerges(s: HeapState, calls: seq<Call>): int
    decreases |calls|
  {
    if calls == [] then 0
    else Merges(s, calls[0]) + AllMerges(Step(s, calls[0], NODE_SIZE), calls[1..])
  }

  function AllVended(s: HeapState, calls: seq<Call>): nat
    decreases |calls|
  {
    if calls == [] then 0
    else Vended(s, calls[0]) + AllVended(Step(s, calls[0], NODE_SIZE), calls[1..])
  }

  function AllReturned(calls: seq<Call>): nat {
    if calls == [] then 0 else Returned(calls[0]) + AllReturned(calls[1..])
  }

  lemma {:induction false} StepAccount(s: HeapState, c: Call) returns (q: nat)
    ensures Total(Step(s, c, NODE_SIZE).free) + Vended(s, c) + WRAP * q ==
            Total(s.free) + Returned(c) + 4 * Merges(s, c)
  {
    match c {
      case MallocCall(n) =>
        q := 0;
        var i := FirstFit(s.free, AlignUp(n));
        if n != 0 && i < |s.free| {
          CarveTotal(s.free, i, AlignUp(n));
        }
      case FreeCall(b) =>
        q := PassDrift(Insert(s.free, b), NODE_SIZE);
        InsertTotal(s.free, b);
    }
  }

  lemma {:induction false} CarveTotal(free: seq<Block>, i: nat, size: nat)
    requires i < |free| && size <= free[i].size
    ensures Total(Carve(free, i, size)) + Taken(free[i], size).Extent() == Total(free)
  {
    var r := Remainder(free[i], size);
    assert free == free[..i] + free[i..] && free[i..][1..] == free[i + 1..];
    TotalConcat(free[..i], free[i..]);
    TotalConcat(free[..i], r);
    TotalConcat(free[..i] + r, free[i + 1..]);
    assert r != [] ==> r[1..] == [];
  }

  lemma {:induction false} InsertTotal(free: seq<Block>, b: Block)
    ensures Total(Insert(free, b)) == Total(free) + b.Extent()
  {
    var p := Position(free, b.addr);
    assert free == free[..p] + free[p..];
    TotalConcat(free[..p], free[p..]);
    TotalConcat(free[..p], [b]);
    TotalConcat(free[..p] + [b], free[p..]);
    assert [b][1..] == [];
  }

  /** Conservation with drift, over every history: free bytes plus bytes vended equal bytes at
      the start plus bytes returned, plus four for every merge ever made, modulo 2^32.  This is
      about the blocks as they are recorded; memory follows as long as every header that a
      malloc splits off has room (`HeapMemory.Heap.RunCalls`). */
  lemma {:induction false} HistoryDrift(s: HeapState, calls: seq<Call>) returns (q: nat)
    ensures Total(Run(s, calls, NODE_SIZE).free) + AllVended(s, calls) + WRAP * q ==
            Total(s.free) + AllReturned(calls) + 4 * AllMerges(s, calls)
    decreases |calls|
  {
    q := 0;
    if calls != [] {
      var q0 := StepAccount(s, calls[0]);
      var q1 := HistoryDrift(Step(s, calls[0], NODE_SIZE), calls[1..]);
      q := q0 + q1;
    }
  }

  // ---------- When the literal overhead is harmless ----------

  /** No block of the list touches its successor. */
  predicate Quiet(free: seq<Block>) {
    forall i :: 0 <= i < |free| - 1 ==> !Touches(free[i], free[i + 1])
  }

  lemma {:induction false} QuietFrom(lb: Block, rest: seq<Block>, overhead: nat)
    ensures Quiet([lb] + rest) ==> DefragFrom(lb, rest, overhead) == [lb] + rest
    ensures !Quiet([lb] + rest) ==> |DefragFrom(lb, rest, overhead)| < 1 + |rest|
    decreases |rest|
  {
    if rest != [] {
      QuietStep(lb, rest);
      if Touches(lb, rest[0]) {
        var q := MergeDrift(Merged(lb, rest[0], overhead), rest[1..], overhead);
      } else {
        assert [rest[0]] + rest[1..] == rest;
        QuietFrom(rest[0], rest[1..], overhead);
      }
    }
  }

  lemma {:induction false} QuietStep(lb: Block, rest: seq<Block>)
    requires rest != []
    ensures Quiet([lb] + rest) <==> !Touches(lb, rest[0]) && Quiet(rest)
  {
    var x := [lb] + rest;
    if Quiet(x) {
      assert !Touches(x[0], x[1]);
      forall i | 0 <= i < |rest| - 1 ensures !Touches(rest[i], rest[i + 1]) {
        assert !Touches(x[i + 1], x[i + 2]);
      }
    } else {
      var i :| 0 <= i < |x| - 1 && Touches(x[i], x[i + 1]);
      if i > 0 { assert Touches(rest[i - 1], rest[i]); }
    }
  }

  /** A pass changes a list exactly when some block touches the next, and then shortens it. */
  lemma {:induction false} QuietDefrag(free: seq<Block>, overhead: nat)
    ensures Quiet(free) ==> Defrag(free, overhead) == free
    ensures !Quiet(free) ==> |Defrag(free, overhead)| < |free|
  {
    if free != [] {
      assert free == [free[0]] + free[1..];
      QuietFrom(free[0], free[1..], overhead);
    }
  }

  /** Some free block ends where `b` begins or begins where `b` ends. */
  ghost predicate HasFreeNeighbour(s: HeapState, b: Block) {
    exists f :: f in s.free && (f.End() == b.addr || b.End() == f.addr)
  }

  lemma {:induction false} InsertQuiet(s: HeapState, b: Block, lo: nat, hi: nat)
    requires Compact(s, lo, hi) && hi <= WRAP && b in s.live
    ensures Quiet(Insert(s.free, b)) <==> !HasFreeNeighbour(s, b)
    ensures Tiled(HeapState(Insert(s.free, b), s.live - {b}), lo, hi)
  {
    hide Insert, Quiet, Touches, Contiguous, Coalesced;
    var cells: seq<Cell> :| IsLayout(cells, s, lo, hi);
    var k := InsertLayout(cells, s, b, lo, hi);
    var t := HeapState(Insert(s.free, b), s.live - {b});
    TiledGeometry(t, lo, hi);
    CompactSeparates(s, lo, hi);
    assert forall x :: x in t.free ==> Has(t, x) && x.End() <= WRAP;
    if HasFreeNeighbour(s, b) {
      var j :| 0 <= j < |s.free| && (s.free[j].End() == b.addr || b.End() == s.free[j].addr);
      NeighbourTouches(s, b, j);
    } else {
      LonelyIsQuiet(s, b);
    }
  }

  lemma {:induction false} LonelyIsQuiet(s: HeapState, b: Block)
    requires forall f, g :: f in s.free && g in s.free ==> f.End() != g.addr
    requires forall f :: f in s.free ==> f.End() != b.addr && b.End() != f.addr
    requires forall x :: x in Insert(s.free, b) ==> x.End() <= WRAP
    requires Ascending(Insert(s.free, b))
    ensures Quiet(Insert(s.free, b))
  {
    var x, p := Insert(s.free, b), Position(s.free, b.addr);
    forall i | 0 <= i < |x| - 1 ensures !Touches(x[i], x[i + 1]) {
      InsertAt(s.free, b, i);
      InsertAt(s.free, b, i + 1);
      NoTouchApart(x[i], x[i + 1]);
    }
  }

  lemma {:induction false} NoTouchApart(f: Block, g: Block)
    requires f.End() <= g.addr && f.End() != g.addr && f.End() <= WRAP
    ensures !Touches(f, g)
  {
  }

  lemma {:induction false} NeighbourTouches(s: HeapState, b: Block, j: nat)
    requires j < |s.free| && (s.free[j].End() == b.addr || b.End() == s.free[j].addr)
    requires forall x :: x in Insert(s.free, b) ==> x.End() <= WRAP
    requires Ascending(Insert(s.free, b))
    ensures !Quiet(Insert(s.free, b))
  {
    var x, p := Insert(s.free, b), Position(s.free, b.addr);
    var i := if j < p then j else j + 1;
    InsertAt(s.free, b, i);
    InsertAt(s.free, b, p);
    if i < p {
      Consecutive(x, i, p);
      assert Touches(x[i], x[i + 1]);
    } else {
      Consecutive(x, p, i);
      assert Touches(x[p], x[p + 1]);
    }
  }

  lemma {:induction false} Consecutive(x: seq<Block>, i: nat, j: nat)
    requires Ascending(x) && i < j < |x| && (x[i].End() == x[j].addr || x[j].End() == x[i].addr)
    requires x[i].End() <= WRAP && x[j].End() <= WRAP
    ensures j == i + 1 && Touches(x[i], x[j])
  {
    assert x[i].End() <= x[i + 1].addr;
  }

  lemma {:induction false} TotalFits(cells: seq<Cell>, lo: nat, hi: nat)
    requires Contiguous(cells, lo, hi)
    ensures lo + Total(FreeOf(cells)) <= hi
    ensures |FreeOf(cells)| * HEADER <= Total(FreeOf(cells))
  {
    if cells != [] {
      TotalFits(cells[1..], cells[0].block.End(), hi);
      var f := FreeOf(cells[1..]);
      assert ([cells[0].block] + f)[1..] == f;
      assert FreeOf(cells) == if cells[0].free then [cells[0].block] + f else f;
    }
  }

  /** The live blocks of a tiled heap, compact or not, determine how many bytes are free. */
  lemma {:induction false} TotalDetermined(s: HeapState, t: HeapState, lo: nat, hi: nat)
    requires Tiled(s, lo, hi) && Tiled(t, lo, hi) && s.live == t.live && hi <= WRAP
    ensures Total(s.free) == Total(t.free)
  {
    TotalOfPass(s, lo, hi);
    TotalOfPass(t, lo, hi);
    Canonical(HeapState(Defrag(s.free, HEADER), s.live), HeapState(Defrag(t.free, HEADER), t.live), lo, hi);
  }

  lemma {:induction false} TotalOfPass(s: HeapState, lo: nat, hi: nat)
    requires Tiled(s, lo, hi) && hi <= WRAP
    ensures Total(Defrag(s.free, HEADER)) == Total(s.free)
    ensures Compact(HeapState(Defrag(s.free, HEADER), s.live), lo, hi)
    ensures |s.free| * HEADER <= WRAP
  {
    var cells: seq<Cell> :| IsLayout(cells, s, lo, hi);
    CompactLayout(cells, s, lo, hi);
    TotalFits(cells, lo, hi);
    var q := PassDrift(s.free, HEADER);
  }

  /** As written, `heap_free` keeps the tiling exactly when no free block is next to the
      block it frees. */
  lemma {:induction false} LiteralFreeTiles(s: HeapState, b: Block, lo: nat, hi: nat)
    requires Compact(s, lo, hi) && hi <= WRAP && b in s.live
    ensures Tiled(Free(s, b, NODE_SIZE), lo, hi) <==> !HasFreeNeighbour(s, b)
    ensures !HasFreeNeighbour(s, b) ==> Free(s, b, NODE_SIZE) == Free(s, b, HEADER)
    ensures HasFreeNeighbour(s, b) ==> Total(Free(s, b, NODE_SIZE).free) != Total(Insert(s.free, b))
  {
    var x := Insert(s.free, b);
    var t := HeapState(x, s.live - {b});
    InsertQuiet(s, b, lo, hi);
    QuietDefrag(x, NODE_SIZE);
    QuietDefrag(x, HEADER);
    TotalOfPass(t, lo, hi);
    var q := PassDrift(x, NODE_SIZE);
    if Tiled(Free(s, b, NODE_SIZE), lo, hi) {
      TotalDetermined(t, Free(s, b, NODE_SIZE), lo, hi);
    }
  }

  /** No free of the history has a free neighbour. */
  ghost predicate NeverAdjoins(s: HeapState, calls: seq<Call>)
    decreases |calls|
  {
    calls != [] ==>
      && (calls[0].FreeCall? ==> !HasFreeNeighbour(s, calls[0].b))
      && NeverAdjoins(Step(s, calls[0], NODE_SIZE), calls[1..])
  }

  /** After every prefix of the history the heap is tiled. */
  ghost predicate StaysTiled(s: HeapState, calls: seq<Call>, lo: nat, hi: nat)
    decreases |calls|
  {
    Tiled(s, lo, hi) && (calls != [] ==> StaysTiled(Step(s, calls[0], NODE_SIZE), calls[1..], lo, hi))
  }

  /** As written, the heap stays tiled through a history exactly when no free of it has a free
      neighbour; then the history is the intended one. */
  lemma {:induction false} LiteralHistoryTiles(s: HeapState, calls: seq<Call>, lo: nat, hi: nat)
    requires Compact(s, lo, hi) && hi <= WRAP && Legal(s, calls, NODE_SIZE)
    ensures StaysTiled(s, calls, lo, hi) <==> NeverAdjoins(s, calls)
    ensures NeverAdjoins(s, calls) ==>
              Legal(s, calls, HEADER) && Run(s, calls, NODE_SIZE) == Run(s, calls, HEADER)
    decreases |calls|
  {
    assert Tiled(s, lo, hi);
    if calls != [] {
      var c := calls[0];
      var t := Step(s, c, NODE_SIZE);
      match c {
        case MallocCall(n) =>
          MallocKeepsCompact(s, n, lo, hi);
          LiteralHistoryTiles(t, calls[1..], lo, hi);
        case FreeCall(b) =>
          LiteralFreeTiles(s, b, lo, hi);
          if HasFreeNeighbour(s, b) {
            assert !StaysTiled(t, calls[1..], lo, hi);
          } else {
            FreeCompacts(s, b, lo, hi);
            LiteralHistoryTiles(t, calls[1..], lo, hi);
          }
      }
    }
  }

  /** As written, freeing what was just allocated restores the heap exactly when the
      allocation took its block whole. */
  lemma {:induction false} LiteralFreeUndoesMalloc(s: HeapState, n: Word, lo: nat, hi: nat)
    requires Compact(s, lo, hi) && hi <= WRAP && Malloc(s, n).0.Some?
    ensures Free(Malloc(s, n).1, Malloc(s, n).0.value, NODE_SIZE) == s
            <==> !Splits(s.free[FirstFit(s.free, AlignUp(n))], AlignUp(n))
  {
    var size := AlignUp(n);
    var i := FirstFit(s.free, size);
    var b, t := Malloc(s, n).0.value, Malloc(s, n).1;
    assert Tiled(s, lo, hi);
    MallocKeepsCompact(s, n, lo, hi);
    FreeUndoesMalloc(s, n, lo, hi);
    LiteralFreeTiles(t, b, lo, hi);
    if Splits(s.free[i], size) {
      assert t.free[i] == Remainder(s.free[i], size)[0];
      assert HasFreeNeighbour(t, b) by { assert t.free[i] in t.free && b.End() == t.free[i].addr; }
    } else {
      CompactSeparates(s, lo, hi);
      assert forall f :: f in t.free ==> f in s.free;
      assert s.free[i] in s.free;
    }
  }

  /** Allocating and freeing `n` bytes, once and `k` times. */
  function Round(s: HeapState, n: Word, overhead: nat): HeapState {
    var (r, t) := Malloc(s, n);
    if r.None? then t else Free(t, r.value, overhead)
  }

  function Rounds(s: HeapState, n: Word, overhead: nat, k: nat): HeapState
    decreases k
  {
    if k == 0 then s else Rounds(Round(s, n, overhead), n, overhead, k - 1)
  }

  /** `f` is large enough for `n` bytes to be split off it, at addresses that do not wrap. */
  predicate SplitsOff(f: Block, n: Word) {
    n != 0 && Splits(f, AlignUp(n)) && f.addr + HEADER + AlignUp(n) < WRAP
  }

  /** As written, from a heap of one free block such as a fresh one, `k` rounds of a splitting
      request leave one block that claims exactly 4k bytes more. */
  lemma {:induction false} RoundsDrift(f: Block, n: Word, k: nat)
    requires SplitsOff(f, n) && f.size + 4 * k < WRAP
    ensures Rounds(HeapState([f], {}), n, NODE_SIZE, k) == HeapState([Block(f.addr, f.size + 4 * k)], {})
    decreases k
  {
    hide Round, Splits;
    if k > 0 {
      var g := RoundFrom(f, n);
      RoundsDrift(g, n, k - 1);
    }
  }

  /** As written, a request for all that the block then claims is granted memory beyond it: the
      vended block ends 4k bytes past the end of the original one. */
  lemma {:induction false} VendsBeyond(f: Block, n: Word, k: nat, m: Word)
    requires SplitsOff(f, n) && f.size + 4 * k < WRAP && m != 0
    requires AlignUp(m) <= f.size + 4 * k < AlignUp(m) + 44
    ensures var r := Malloc(Rounds(HeapState([f], {}), n, NODE_SIZE, k), m).0;
            r == Some(Block(f.addr, f.size + 4 * k)) && r.value.End() == f.End() + 4 * k
  {
    RoundsDrift(f, n, k);
    assert FirstFit([Block(f.addr, f.size + 4 * k)], AlignUp(m)) == 0;
  }

  /** An input: on the arena [16, 1028), one round of 100 bytes and a request for 1004 vend a
      block that ends at 1032. */
  lemma {:induction false} VendsBeyondArena()
    ensures var s := Rounds(Fresh(16, 1028), 100, NODE_SIZE, 1);
            Malloc(s, 1004).0.Some? && Malloc(s, 1004).0.value.End() == 1032
  {
    VendsBeyond(Block(16, 1000), 100, 1, 1004);
  }

  lemma {:induction false} RoundFrom(f: Block, n: Word) returns (g: Block)
    requires SplitsOff(f, n) && f.size + 4 < WRAP
    ensures g == Block(f.addr, f.size + 4) && SplitsOff(g, n)
    ensures Round(HeapState([f], {}), n, NODE_SIZE) == HeapState([g], {})
  {
    g := Block(f.addr, f.size + 4);
    var size := AlignUp(n);
    var b, rest := Block(f.addr, size), Remainder(f, size)[0];
    assert FirstFit([f], size) == 0;
    assert Carve([f], 0, size) == [rest];
    assert {} + {b} == {b};
    OneRound(b, rest, NODE_SIZE);
  }

  lemma {:induction false} OneRound(b: Block, rest: Block, overhead: nat)
    requires b.End() == rest.addr < WRAP && b.size + overhead + rest.size < WRAP
    ensures Free(HeapState([rest], {b}), b, overhead) ==
            HeapState([Block(b.addr, b.size + overhead + rest.size)], {})
  {
    assert Position([rest], b.addr) == 0;
    assert Insert([rest], b) == [b, rest];
    assert [b, rest][1..] == [rest] && [rest][1..] == [];
    var m := Merged(b, rest, overhead);
    assert DefragFrom(b, [rest], overhead) == DefragFrom(m, [], overhead) == [m];
    assert {b} - {b} == {};
  }
}
