/** What the tiling gives to callers of the allocator: first fit, disjointness, and
    whole-history results for the intended merge overhead. */
module HeapHistory {
  import opened Words
  import opened HeapSpec
  import opened HeapTiling

  // ---------- What a tiled heap looks like ----------

  /** `b` is a block of the heap, free or live. */
  predicate Has(s: HeapState, b: Block) {
    b in s.free || b in s.live
  }

  predicate Apart(b: Block, c: Block) {
    b.End() <= c.addr || c.End() <= b.addr
  }

  predicate Covers(b: Block, a: nat) {
    b.addr <= a < b.End()
  }

  predicate Ascending(free: seq<Block>) {
    forall i, j :: 0 <= i < j < |free| ==> free[i].End() <= free[j].addr
  }

  /** Two cells at different places are apart; free and live blocks never share a place. */
  lemma {:induction false} CellsApart(cells: seq<Cell>, lo: nat, hi: nat, c: Cell, d: Cell)
    requires Contiguous(cells, lo, hi) && c in cells && d in cells && c != d
    ensures Apart(c.block, d.block)
  {
    var i :| 0 <= i < |cells| && cells[i] == c;
    var j :| 0 <= j < |cells| && cells[j] == d;
    if i < j { Ordered(cells, lo, hi, i, j); } else { Ordered(cells, lo, hi, j, i); }
  }

  lemma {:induction false} BlocksAreCells(cells: seq<Cell>, s: HeapState, lo: nat, hi: nat)
    requires IsLayout(cells, s, lo, hi)
    ensures forall f :: f in s.free <==> Cell(f, true) in cells
    ensures forall l :: l in s.live <==> Cell(l, false) in cells
  {
    FreeOfMembers(cells);
  }

  /** A tiled heap: the free list ascends, all blocks lie aligned inside the arena, distinct
      blocks are apart, and no block is both free and live. */
  lemma {:induction false} TiledGeometry(s: HeapState, lo: nat, hi: nat)
    requires Tiled(s, lo, hi)
    ensures Ascending(s.free)
    ensures forall b :: Has(s, b) ==> lo <= b.addr && b.End() <= hi && b.addr % 4 == 0
    ensures forall b, c :: Has(s, b) && Has(s, c) && b != c ==> Apart(b, c)
    ensures forall f, l :: f in s.free && l in s.live ==> Apart(f, l)
  {
    var cells: seq<Cell> :| IsLayout(cells, s, lo, hi);
    FreeAscends(cells, lo, hi);
    BlocksAreCells(cells, s, lo, hi);
    Bounds(cells, lo, hi);
    forall f, l | f in s.free && l in s.live ensures Apart(f, l) {
      CellsApart(cells, lo, hi, Cell(f, true), Cell(l, false));
    }
    forall b, c | Has(s, b) && Has(s, c) && b != c ensures Apart(b, c) {
      CellsApart(cells, lo, hi, Cell(b, b in s.free), Cell(c, c in s.free));
    }
    forall b | Has(s, b) ensures lo <= b.addr && b.End() <= hi && b.addr % 4 == 0 {
      assert Cell(b, b in s.free) in cells;
    }
  }

  lemma {:induction false} CellAt(cells: seq<Cell>, lo: nat, hi: nat, a: nat) returns (c: Cell)
    requires Contiguous(cells, lo, hi) && lo <= a < hi
    ensures c in cells && Covers(c.block, a)
  {
    EmptyLayout(cells, lo, hi);
    c := cells[0];
    if c.block.End() <= a {
      c := CellAt(cells[1..], c.block.End(), hi, a);
    }
  }

  /** Header-plus-payload extents partition the arena: every byte is in exactly one block. */
  lemma {:induction false} TilingPartitions(s: HeapState, lo: nat, hi: nat, a: nat)
    requires Tiled(s, lo, hi)
    ensures lo <= a < hi <==> exists b :: Has(s, b) && Covers(b, a)
    ensures forall b, c :: Has(s, b) && Has(s, c) && Covers(b, a) && Covers(c, a) ==> b == c
  {
    TiledGeometry(s, lo, hi);
    if lo <= a < hi {
      var cells: seq<Cell> :| IsLayout(cells, s, lo, hi);
      BlocksAreCells(cells, s, lo, hi);
      var c := CellAt(cells, lo, hi, a);
      assert Has(s, c.block) by { assert c == Cell(c.block, c.free); }
    }
  }

  /** In a compact heap no free block ends where another begins. */
  lemma {:induction false} CompactSeparates(s: HeapState, lo: nat, hi: nat)
    requires Compact(s, lo, hi)
    ensures forall f, g :: f in s.free && g in s.free ==> f.End() != g.addr
  {
    var cells: seq<Cell> :| IsLayout(cells, s, lo, hi) && Coalesced(cells);
    BlocksAreCells(cells, s, lo, hi);
    forall f, g | f in s.free && g in s.free ensures f.End() != g.addr {
      var i :| 0 <= i < |cells| && cells[i] == Cell(f, true);
      var j :| 0 <= j < |cells| && cells[j] == Cell(g, true);
      if i + 1 < j {
        Ordered(cells, lo, hi, i, i + 1);
        Ordered(cells, lo, hi, i + 1, j);
      } else if j < i {
        Ordered(cells, lo, hi, j, i);
      }
    }
  }

  // ---------- First fit ----------

  /** `heap_malloc` fails exactly when no free block is large enough, and otherwise vends
      from the lowest fitting address a block apart from every live one.  It holds the bytes
      asked for exactly when aligning the size did not wrap. */
  lemma {:induction false} FirstFitVends(s: HeapState, n: Word, lo: nat, hi: nat)
    requires Tiled(s, lo, hi) && hi <= WRAP
    ensures Malloc(s, n).0.None? <==> n == 0 || forall f :: f in s.free ==> f.size < AlignUp(n)
    ensures Malloc(s, n).0.None? ==> Malloc(s, n).1 == s
    ensures Malloc(s, n).0.Some? ==>
              var b := Malloc(s, n).0.value;
              && (exists f :: f in s.free && f.addr == b.addr && AlignUp(n) <= f.size)
              && (forall f :: f in s.free && AlignUp(n) <= f.size ==> b.addr <= f.addr)
              && (forall l :: l in s.live ==> Apart(b, l))
              && b.Payload() % 4 == 0 && b.End() <= hi
              && AlignUp(n) <= b.size < AlignUp(n) + 44
              && (n <= b.size <==> n <= WRAP - 4)
  {
    var size := AlignUp(n);
    var i := FirstFit(s.free, size);
    if n != 0 && i < |s.free| {
      var f, b := s.free[i], Malloc(s, n).0.value;
      FitInArena(s, i, lo, hi);
      LowestFit(s.free, i, size);
      TakenShape(f, n);
      assert forall l :: l in s.live && Apart(f, l) ==> Apart(b, l);
    } else if n != 0 {
      assert forall f :: f in s.free ==> f.size < size;
    }
  }

  lemma {:induction false} FitInArena(s: HeapState, i: nat, lo: nat, hi: nat)
    requires Tiled(s, lo, hi) && i < |s.free|
    ensures Ascending(s.free)
    ensures s.free[i].addr % 4 == 0 && s.free[i].End() <= hi
    ensures forall l :: l in s.live ==> Apart(s.free[i], l)
  {
    TiledGeometry(s, lo, hi);
    assert s.free[i] in s.free && Has(s, s.free[i]);
  }

  lemma {:induction false} LowestFit(free: seq<Block>, i: nat, size: nat)
    requires Ascending(free) && i < |free|
    requires forall j :: 0 <= j < i ==> free[j].size < size
    ensures forall g :: g in free && size <= g.size ==> free[i].addr <= g.addr
  {
    forall j | 0 <= j < |free| && size <= free[j].size ensures free[i].addr <= free[j].addr {
      if i < j { assert free[i].End() <= free[j].addr; }
    }
  }

  lemma {:induction false} TakenShape(f: Block, n: Word)
    requires AlignUp(n) <= f.size && f.End() <= WRAP && f.addr % 4 == 0 && n != 0
    ensures var b := Taken(f, AlignUp(n));
            b.addr == f.addr && b.End() <= f.End() && b.Payload() % 4 == 0 &&
            AlignUp(n) <= b.size < AlignUp(n) + 44 && (n <= b.size <==> n <= WRAP - 4)
  {
  }

  /** What becomes of the first free block `f` with room for the aligned size, in any heap: with
      less than 44 bytes to spare all of it is handed out; otherwise exactly the aligned size,
      and what lies behind it, less 12 bytes for a header, takes the place of `f`. */
  lemma {:induction false} SplitRule(s: HeapState, n: Word, i: nat)
    requires n != 0 && i < |s.free| && AlignUp(n) <= s.free[i].size
    requires forall j :: 0 <= j < i ==> s.free[j].size < AlignUp(n)
    ensures var f, size := s.free[i], AlignUp(n);
      var before, after := s.free[..i], s.free[i + 1..];
      if f.size - size < 44 then
        && Malloc(s, n) == (Some(f), HeapState(before + after, s.live + {f}))
        && f.Payload() == f.addr + 12
      else
        var b, rest := Block(f.addr, size), Block(f.addr + 12 + size, f.size - size - 12);
        && Malloc(s, n) == (Some(b), HeapState(before + [rest] + after, s.live + {b}))
        && b.Payload() == f.addr + 12 && b.End() == rest.addr && rest.End() == f.End() && rest.size >= 32
  {
    assert FirstFit(s.free, AlignUp(n)) == i;
    assert s.free[..i] + [] == s.free[..i];
  }

  // ---------- Histories ----------

  lemma {:induction false} FreshCompact(lo: nat, hi: nat)
    requires lo % 4 == 0 && lo + HEADER <= hi
    ensures Compact(Fresh(lo, hi), lo, hi)
  {
    var c := Cell(Block(lo, hi - lo - HEADER), true);
    Singleton(c);
    assert [c][1..] == [];
    assert IsLayout([c], Fresh(lo, hi), lo, hi) && Coalesced([c]);
  }

  /** Every legal history keeps the heap tiled and coalesced. */
  lemma {:induction false} HistoryCompact(s: HeapState, calls: seq<Call>, lo: nat, hi: nat)
    requires Compact(s, lo, hi) && hi <= WRAP && Legal(s, calls, HEADER)
    ensures Compact(Run(s, calls, HEADER), lo, hi)
    decreases |calls|
  {
    if calls != [] {
      match calls[0] {
        case MallocCall(n) => MallocKeepsCompact(s, n, lo, hi);
        case FreeCall(b) =>
          assert Tiled(s, lo, hi);
          FreeCompacts(s, b, lo, hi);
      }
      HistoryCompact(Step(s, calls[0], HEADER), calls[1..], lo, hi);
    }
  }

  /** Two histories that leave the same blocks live leave the same free list; freeing
      everything, in whatever order, restores the single original block. */
  lemma {:induction false} HistoryCanonical(lo: nat, hi: nat, p: seq<Call>, q: seq<Call>)
    requires lo % 4 == 0 && lo + HEADER <= hi <= WRAP
    requires Legal(Fresh(lo, hi), p, HEADER) && Legal(Fresh(lo, hi), q, HEADER)
    requires Run(Fresh(lo, hi), p, HEADER).live == Run(Fresh(lo, hi), q, HEADER).live
    ensures Run(Fresh(lo, hi), p, HEADER) == Run(Fresh(lo, hi), q, HEADER)
    ensures Run(Fresh(lo, hi), p, HEADER).live == {} ==> Run(Fresh(lo, hi), p, HEADER) == Fresh(lo, hi)
  {
    FreshCompact(lo, hi);
    HistoryCompact(Fresh(lo, hi), p, lo, hi);
    HistoryCompact(Fresh(lo, hi), q, lo, hi);
    Canonical(Run(Fresh(lo, hi), p, HEADER), Run(Fresh(lo, hi), q, HEADER), lo, hi);
    if Run(Fresh(lo, hi), p, HEADER).live == {} {
      Canonical(Run(Fresh(lo, hi), p, HEADER), Fresh(lo, hi), lo, hi);
    }
  }

  /** A vended block was not live before. */
  lemma {:induction false} VendedIsNew(s: HeapState, n: Word, lo: nat, hi: nat)
    requires Tiled(s, lo, hi) && Malloc(s, n).0.Some?
    ensures Malloc(s, n).0.value !in s.live
    ensures Malloc(s, n).1.live - {Malloc(s, n).0.value} == s.live
  {
    var i := FirstFit(s.free, AlignUp(n));
    FitInArena(s, i, lo, hi);
    var b := Taken(s.free[i], AlignUp(n));
    assert b.addr == s.free[i].addr;
    assert forall l :: l in s.live ==> l != b;
  }

  /** Freeing what was just allocated restores the very same heap. */
  lemma {:induction false} FreeUndoesMalloc(s: HeapState, n: Word, lo: nat, hi: nat)
    requires Compact(s, lo, hi) && hi <= WRAP && Malloc(s, n).0.Some?
    ensures Free(Malloc(s, n).1, Malloc(s, n).0.value, HEADER) == s
  {
    assert Tiled(s, lo, hi);
    VendedIsNew(s, n, lo, hi);
    MallocKeepsTiled(s, n, lo, hi);
    FreeCompacts(Malloc(s, n).1, Malloc(s, n).0.value, lo, hi);
    Canonical(Free(Malloc(s, n).1, Malloc(s, n).0.value, HEADER), s, lo, hi);
  }
}
