/** Geometry of the heap: with the merge overhead equal to the header size, free and live
    blocks tile the arena in every reachable state, no two free blocks touch, and the set
    of live blocks determines the free list. */
module HeapTiling {
  import opened Words
  import opened HeapSpec

  /** The arena read from low to high addresses: blocks, each free or live. */
  datatype Cell = Cell(block: Block, free: bool)

  function FreeOf(cells: seq<Cell>): seq<Block> {
    if cells == [] then []
    else if cells[0].free then [cells[0].block] + FreeOf(cells[1..])
    else FreeOf(cells[1..])
  }

  function LiveOf(cells: seq<Cell>): set<Block> {
    set c | c in cells && !c.free :: c.block
  }

  /** The cells follow one another from `lo` to `hi` with no gap and no overlap. */
  predicate Contiguous(cells: seq<Cell>, lo: nat, hi: nat) {
    if cells == [] then lo == hi
    else cells[0].block.addr == lo && Contiguous(cells[1..], cells[0].block.End(), hi)
  }

  predicate Coalesced(cells: seq<Cell>) {
    forall i :: 0 <= i < |cells| - 1 ==> !(cells[i].free && cells[i + 1].free)
  }

  /** Every block boundary but the arena's end is 4-aligned. */
  predicate AlignedCells(cells: seq<Cell>) {
    forall c :: c in cells ==> c.block.addr % 4 == 0
  }

  ghost predicate IsLayout(cells: seq<Cell>, s: HeapState, lo: nat, hi: nat) {
    Contiguous(cells, lo, hi) && AlignedCells(cells) &&
    FreeOf(cells) == s.free && LiveOf(cells) == s.live
  }

  ghost predicate Tiled(s: HeapState, lo: nat, hi: nat) {
    exists cells :: IsLayout(cells, s, lo, hi)
  }

  ghost predicate Compact(s: HeapState, lo: nat, hi: nat) {
    exists cells :: IsLayout(cells, s, lo, hi) && Coalesced(cells)
  }

  // ---------- Layouts as sequences ----------

  lemma {:induction false} FreeOfConcat(a: seq<Cell>, b: seq<Cell>)
    ensures FreeOf(a + b) == FreeOf(a) + FreeOf(b)
  {
    if a == [] {
      assert a + b == b;
    } else {
      assert (a + b)[1..] == a[1..] + b;
      FreeOfConcat(a[1..], b);
    }
  }

  /** A contiguous layout is cut at any index into two contiguous layouts. */
  lemma {:induction false} Cut(a: seq<Cell>, b: seq<Cell>, lo: nat, hi: nat) returns (mid: nat)
    requires Contiguous(a + b, lo, hi)
    ensures Contiguous(a, lo, mid) && Contiguous(b, mid, hi)
  {
    if a == [] {
      assert a + b == b;
      mid := lo;
    } else {
      assert (a + b)[1..] == a[1..] + b;
      mid := Cut(a[1..], b, a[0].block.End(), hi);
    }
  }

  lemma {:induction false} Join(a: seq<Cell>, b: seq<Cell>, lo: nat, mid: nat, hi: nat)
    requires Contiguous(a, lo, mid) && Contiguous(b, mid, hi)
    ensures Contiguous(a + b, lo, hi)
  {
    if a == [] {
      assert a + b == b;
    } else {
      assert (a + b)[1..] == a[1..] + b;
      Join(a[1..], b, a[0].block.End(), mid, hi);
    }
  }

  /** Every cell of a contiguous layout lies inside its bounds. */
  lemma {:induction false} Bounds(cells: seq<Cell>, lo: nat, hi: nat)
    requires Contiguous(cells, lo, hi)
    ensures lo <= hi
    ensures forall c :: c in cells ==> lo <= c.block.addr && c.block.End() <= hi
  {
    if cells != [] {
      Bounds(cells[1..], cells[0].block.End(), hi);
      assert forall c :: c in cells ==> c == cells[0] || c in cells[1..];
    }
  }

  /** Cells in order of index are in order of address and do not overlap. */
  lemma {:induction false} Ordered(cells: seq<Cell>, lo: nat, hi: nat, i: nat, j: nat)
    requires Contiguous(cells, lo, hi) && i < j < |cells|
    ensures cells[i].block.End() <= cells[j].block.addr
  {
    if i == 0 {
      Bounds(cells[1..], cells[0].block.End(), hi);
      assert cells[j] in cells[1..];
    } else {
      Ordered(cells[1..], cells[0].block.End(), hi, i - 1, j - 1);
    }
  }

  lemma {:induction false} FreeOfMembers(cells: seq<Cell>)
    ensures forall b :: b in FreeOf(cells) <==> Cell(b, true) in cells
  {
    if cells != [] {
      FreeOfMembers(cells[1..]);
      assert cells == [cells[0]] + cells[1..];
    }
  }

  /** The cell that carries free block number `i`. */
  lemma {:induction false} FindFree(cells: seq<Cell>, i: nat) returns (k: nat)
    requires i < |FreeOf(cells)|
    ensures k < |cells| && cells[k] == Cell(FreeOf(cells)[i], true)
    ensures FreeOf(cells[..k]) == FreeOf(cells)[..i]
    ensures FreeOf(cells[k + 1..]) == FreeOf(cells)[i + 1..]
  {
    if cells[0].free && i == 0 {
      k := 0;
    } else {
      var d := if cells[0].free then 1 else 0;
      k := FindFree(cells[1..], i - d);
      assert cells[1..][..k] == cells[..k + 1][1..];
      assert cells[1..][k + 1..] == cells[k + 2..];
      k := k + 1;
    }
  }

  /** The free blocks of a layout ascend, each ending at or below the next. */
  lemma {:induction false} FreeAscends(cells: seq<Cell>, lo: nat, hi: nat)
    requires Contiguous(cells, lo, hi)
    ensures forall i, j :: 0 <= i < j < |FreeOf(cells)| ==> FreeOf(cells)[i].End() <= FreeOf(cells)[j].addr
  {
    var f := FreeOf(cells);
    forall i, j | 0 <= i < j < |f| ensures f[i].End() <= f[j].addr {
      var k := FindFree(cells, i);
      var rest := cells[k + 1..];
      assert f[j] == f[i + 1..][j - i - 1];
      FreeOfMembers(rest);
      assert Cell(f[j], true) in rest;
      var l :| 0 <= l < |rest| && rest[l] == Cell(f[j], true);
      Ordered(cells, lo, hi, k, k + 1 + l);
    }
  }

  // ---------- Malloc keeps the tiling ----------

  /** Replacing the cell of a fitting free block by its taken part and its remainder. */
  function SplitCell(b: Block, size: nat): (r: seq<Cell>)
    requires size <= b.size
    ensures 1 <= |r| <= 2 && r[0] == Cell(Taken(b, size), false)
  {
    if Splits(b, size) then
      [Cell(Block(b.addr, size), false), Cell(Remainder(b, size)[0], true)]
    else [Cell(b, false)]
  }

  lemma {:induction false} SplitCellFits(b: Block, size: nat)
    requires size <= b.size
    ensures Contiguous(SplitCell(b, size), b.addr, b.End())
    ensures FreeOf(SplitCell(b, size)) == Remainder(b, size)
    ensures LiveOf(SplitCell(b, size)) == {Taken(b, size)}
    ensures b.addr % 4 == 0 && size % 4 == 0 ==> AlignedCells(SplitCell(b, size))
  {
    var r := SplitCell(b, size);
    if |r| == 2 {
      assert r[1..] == [r[1]] && r[1..][1..] == [];
      assert r[1].block.End() == b.End();
      assert FreeOf([r[1]]) == [r[1].block] + FreeOf([]);
    } else {
      assert r[1..] == [];
    }
    assert r[0] in r;
    assert forall c :: c in r && !c.free ==> c == r[0];
  }

  lemma {:induction false} LiveOfConcat(a: seq<Cell>, b: seq<Cell>)
    ensures LiveOf(a + b) == LiveOf(a) + LiveOf(b)
  {
    forall x | x in LiveOf(a) + LiveOf(b) ensures x in LiveOf(a + b) {
      assert Cell(x, false) in a + b;
    }
  }

  lemma {:induction false} Concat3(a: seq<Cell>, m: seq<Cell>, b: seq<Cell>)
    ensures FreeOf(a + m + b) == FreeOf(a) + FreeOf(m) + FreeOf(b)
    ensures LiveOf(a + m + b) == LiveOf(a) + LiveOf(m) + LiveOf(b)
  {
    FreeOfConcat(a, m);
    FreeOfConcat(a + m, b);
    LiveOfConcat(a, m);
    LiveOfConcat(a + m, b);
  }

  lemma {:induction false} Singleton(c: Cell)
    ensures FreeOf([c]) == if c.free then [c.block] else []
    ensures LiveOf([c]) == if c.free then {} else {c.block}
  {
    assert c in [c];
    assert [c][1..] == [];
  }

  lemma {:induction false} Around(a: seq<Cell>, c: Cell, b: seq<Cell>)
    ensures LiveOf(a + [c] + b) == LiveOf(a) + (if c.free then {} else {c.block}) + LiveOf(b)
    ensures FreeOf(a + [c] + b) == FreeOf(a) + (if c.free then [c.block] else []) + FreeOf(b)
  {
    Concat3(a, [c], b);
    Singleton(c);
  }

  /** Exchanging cell `k` for a layout of the same extent. */
  lemma {:induction false} Exchange(cells: seq<Cell>, k: nat, r: seq<Cell>, lo: nat, hi: nat)
    requires Contiguous(cells, lo, hi) && k < |cells|
    requires Contiguous(r, cells[k].block.addr, cells[k].block.End())
    ensures Contiguous(cells[..k] + r + cells[k + 1..], lo, hi)
    ensures FreeOf(cells[..k] + r + cells[k + 1..]) == FreeOf(cells[..k]) + FreeOf(r) + FreeOf(cells[k + 1..])
    ensures LiveOf(cells[..k] + r + cells[k + 1..]) == LiveOf(cells[..k]) + LiveOf(r) + LiveOf(cells[k + 1..])
  {
    assert cells == cells[..k] + cells[k..];
    var mid := Cut(cells[..k], cells[k..], lo, hi);
    assert cells[k..][1..] == cells[k + 1..];
    Join(cells[..k], r, lo, mid, cells[k].block.End());
    Join(cells[..k] + r, cells[k + 1..], lo, cells[k].block.End(), hi);
    Concat3(cells[..k], r, cells[k + 1..]);
  }

  lemma {:induction false} ExchangeAligned(cells: seq<Cell>, k: nat, r: seq<Cell>)
    requires k < |cells| && AlignedCells(cells) && AlignedCells(r)
    ensures AlignedCells(cells[..k] + r + cells[k + 1..])
  {
  }

  /** The layout after a successful malloc. */
  lemma {:induction false} MallocLayout(cells: seq<Cell>, s: HeapState, n: Word, lo: nat, hi: nat) returns (cells': seq<Cell>, k: nat)
    requires IsLayout(cells, s, lo, hi)
    requires Malloc(s, n).0.Some?
    ensures IsLayout(cells', Malloc(s, n).1, lo, hi)
    ensures k < |cells| && cells[k].free && AlignUp(n) <= cells[k].block.size
    ensures cells' == cells[..k] + SplitCell(cells[k].block, AlignUp(n)) + cells[k + 1..]
  {
    hide Contiguous, LiveOf, FreeOf;
    var size := AlignUp(n);
    var i := FirstFit(s.free, size);
    k := FindFree(cells, i);
    var b := s.free[i];
    var r := SplitCell(b, size);
    cells' := cells[..k] + r + cells[k + 1..];
    SplitCellFits(b, size);
    Exchange(cells, k, r, lo, hi);
    Around(cells[..k], cells[k], cells[k + 1..]);
    assert cells == cells[..k] + [cells[k]] + cells[k + 1..];
    assert AlignedCells(cells') by { ExchangeAligned(cells, k, r); }
  }

  lemma {:induction false} MallocKeepsTiled(s: HeapState, n: Word, lo: nat, hi: nat)
    requires Tiled(s, lo, hi)
    ensures Tiled(Malloc(s, n).1, lo, hi)
  {
    if Malloc(s, n).0.Some? {
      var cells: seq<Cell> :| IsLayout(cells, s, lo, hi);
      var cells', k := MallocLayout(cells, s, n, lo, hi);
    }
  }

  /** A free cell of a coalesced layout has no free neighbour, so any coalesced layout
      fits in its place. */
  lemma {:induction false} ExchangeCoalesced(cells: seq<Cell>, k: nat, r: seq<Cell>)
    requires Coalesced(cells) && k < |cells| && cells[k].free
    requires Coalesced(r) && r != []
    ensures Coalesced(cells[..k] + r + cells[k + 1..])
  {
    var c := cells[..k] + r + cells[k + 1..];
    forall i | 0 <= i < |c| - 1 ensures !(c[i].free && c[i + 1].free) {
      if i < k - 1 {
        assert !(cells[i].free && cells[i + 1].free);
      } else if i == k - 1 {
        assert cells[i + 1].free;
      } else if i < k + |r| - 1 {
        assert !(r[i - k].free && r[i - k + 1].free);
      } else if i == k + |r| - 1 {
        assert !(cells[k].free && cells[k + 1].free);
      } else {
        var j := i - |r| + 1;
        assert !(cells[j].free && cells[j + 1].free);
      }
    }
  }

  lemma {:induction false} MallocKeepsCompact(s: HeapState, n: Word, lo: nat, hi: nat)
    requires Compact(s, lo, hi)
    ensures Compact(Malloc(s, n).1, lo, hi)
  {
    if Malloc(s, n).0.Some? {
      var cells: seq<Cell> :| IsLayout(cells, s, lo, hi) && Coalesced(cells);
      var cells', k := MallocLayout(cells, s, n, lo, hi);
      ExchangeCoalesced(cells, k, SplitCell(cells[k].block, AlignUp(n)));
    }
  }

  // ---------- Free coalesces in one pass ----------

  /** Freeing the cell of a live block gives the free list that the ordered insert gives. */
  lemma {:induction false} InsertLayout(cells: seq<Cell>, s: HeapState, b: Block, lo: nat, hi: nat) returns (k: nat)
    requires IsLayout(cells, s, lo, hi) && b in s.live
    ensures k < |cells| && cells[k] == Cell(b, false)
    ensures IsLayout(cells[k := Cell(b, true)], HeapState(Insert(s.free, b), s.live - {b}), lo, hi)
  {
    hide Insert, FreeOf, Contiguous, AlignedCells;
    k :| 0 <= k < |cells| && cells[k] == Cell(b, false);
    var l, r := cells[..k], cells[k + 1..];
    assert l + [cells[k]] + r == cells;
    assert l + [Cell(b, true)] + r == cells[k := Cell(b, true)];
    Around(l, cells[k], r);
    Around(l, Cell(b, true), r);
    Distinct(cells, k, lo, hi);
    Neighbours(cells, k, lo, hi);
    assert s.free == FreeOf(l) + FreeOf(r);
    InsertBetween(FreeOf(l), FreeOf(r), b);
    assert FreeOf(cells[k := Cell(b, true)]) == Insert(s.free, b);
    FreeCell(cells, k, lo, hi);
  }

  lemma {:induction false} FreeCell(cells: seq<Cell>, k: nat, lo: nat, hi: nat)
    requires Contiguous(cells, lo, hi) && AlignedCells(cells) && k < |cells|
    ensures Contiguous(cells[k := Cell(cells[k].block, true)], lo, hi)
    ensures AlignedCells(cells[k := Cell(cells[k].block, true)])
  {
    var c := Cell(cells[k].block, true);
    assert [c][1..] == [];
    Exchange(cells, k, [c], lo, hi);
    assert cells[..k] + [c] + cells[k + 1..] == cells[k := c];
    assert cells[k] in cells;
  }

  lemma {:induction false} Distinct(cells: seq<Cell>, k: nat, lo: nat, hi: nat)
    requires Contiguous(cells, lo, hi) && k < |cells|
    ensures forall c :: c in cells[..k] || c in cells[k + 1..] ==> c.block != cells[k].block
  {
    forall c | c in cells[..k] || c in cells[k + 1..] ensures c.block != cells[k].block {
      var i :| 0 <= i < |cells| && i != k && cells[i] == c;
      if i < k { Ordered(cells, lo, hi, i, k); } else { Ordered(cells, lo, hi, k, i); }
    }
  }

  lemma {:induction false} Neighbours(cells: seq<Cell>, k: nat, lo: nat, hi: nat)
    requires Contiguous(cells, lo, hi) && k < |cells|
    ensures forall f :: f in FreeOf(cells[..k]) ==> f.addr < cells[k].block.addr
    ensures forall f :: f in FreeOf(cells[k + 1..]) ==> cells[k].block.addr < f.addr
  {
    FreeOfMembers(cells[..k]);
    FreeOfMembers(cells[k + 1..]);
    forall f | f in FreeOf(cells[..k]) ensures f.addr < cells[k].block.addr {
      var i :| 0 <= i < k && cells[i] == Cell(f, true);
      Ordered(cells, lo, hi, i, k);
    }
    forall f | f in FreeOf(cells[k + 1..]) ensures cells[k].block.addr < f.addr {
      var r := cells[k + 1..];
      var i :| 0 <= i < |r| && r[i] == Cell(f, true);
      Ordered(cells, lo, hi, k, k + 1 + i);
    }
  }

  lemma {:induction false} InsertBetween(l: seq<Block>, r: seq<Block>, b: Block)
    requires forall f :: f in l ==> f.addr < b.addr
    requires forall f :: f in r ==> b.addr < f.addr
    ensures Insert(l + r, b) == l + [b] + r
  {
    var p := Position(l + r, b.addr);
    assert forall j :: 0 <= j < |l| ==> (l + r)[j] in l;
    assert r != [] ==> (l + r)[|l|] in r;
    assert (l + r)[..|l|] == l && (l + r)[|l|..] == r;
  }

  /** The layout with every run of free cells replaced by one. */
  function CoalesceFrom(c: Cell, rest: seq<Cell>): (r: seq<Cell>)
    ensures r != [] && r[0].free == c.free && r[0].block.addr == c.block.addr
    decreases |rest|
  {
    if rest == [] then [c]
    else if c.free && rest[0].free then
      CoalesceFrom(Cell(Block(c.block.addr, c.block.size + rest[0].block.Extent()), true), rest[1..])
    else [c] + CoalesceFrom(rest[0], rest[1..])
  }

  /** One coalescing pass over the free list of any layout yields the free list of the
      fully coalesced layout, however many free neighbours there were. */
  lemma {:induction false} OnePass(c: Cell, rest: seq<Cell>, lo: nat, hi: nat)
    requires Contiguous([c] + rest, lo, hi) && hi <= WRAP
    ensures Contiguous(CoalesceFrom(c, rest), lo, hi)
    ensures Coalesced(CoalesceFrom(c, rest))
    ensures c.free ==> FreeOf(CoalesceFrom(c, rest)) == DefragFrom(c.block, FreeOf(rest), HEADER)
    ensures !c.free ==> FreeOf(CoalesceFrom(c, rest)) == Defrag(FreeOf(rest), HEADER)
    decreases |rest|
  {
    if rest == [] {
      assert [c] + rest == [c];
      Singleton(c);
    } else {
      if c.free && rest[0].free {
        OnePassMerge(c, rest, lo, hi);
      } else {
        OnePassKeep(c, rest, lo, hi);
      }
    }
  }

  lemma {:induction false} OnePassKeep(c: Cell, rest: seq<Cell>, lo: nat, hi: nat)
    requires Contiguous([c] + rest, lo, hi) && hi <= WRAP
    requires rest != [] && !(c.free && rest[0].free)
    ensures Contiguous(CoalesceFrom(c, rest), lo, hi)
    ensures Coalesced(CoalesceFrom(c, rest))
    ensures FreeOf(CoalesceFrom(c, rest)) == if c.free then DefragFrom(c.block, FreeOf(rest), HEADER) else Defrag(FreeOf(rest), HEADER)
    decreases |rest|, 0
  {
    assert ([c] + rest)[1..] == rest == [rest[0]] + rest[1..];
    var tail := CoalesceFrom(rest[0], rest[1..]);
    OnePass(rest[0], rest[1..], c.block.End(), hi);
    assert ([c] + tail)[1..] == tail;
    FreeOfConcat([c], tail);
    Singleton(c);
    assert FreeOf(rest) == (if rest[0].free then [rest[0].block] else []) + FreeOf(rest[1..]);
    if rest[0].free {
      assert FreeOf(rest)[1..] == FreeOf(rest[1..]);
    } else {
      assert FreeOf(rest) == FreeOf(rest[1..]);
    }
    assert FreeOf(tail) == Defrag(FreeOf(rest), HEADER);
    if c.free {
      NoTouch(c, rest, lo, hi);
    }
  }

  lemma {:induction false} OnePassMerge(c: Cell, rest: seq<Cell>, lo: nat, hi: nat)
    requires Contiguous([c] + rest, lo, hi) && hi <= WRAP
    requires rest != [] && c.free && rest[0].free
    ensures Contiguous(CoalesceFrom(c, rest), lo, hi)
    ensures Coalesced(CoalesceFrom(c, rest))
    ensures FreeOf(CoalesceFrom(c, rest)) == DefragFrom(c.block, FreeOf(rest), HEADER)
    decreases |rest|, 0
  {
    assert ([c] + rest)[1..] == rest;
    Bounds(rest, c.block.End(), hi);
    assert rest[0] in rest;
    var m := Cell(Block(c.block.addr, c.block.size + rest[0].block.Extent()), true);
    assert m.block == Merged(c.block, rest[0].block, HEADER);
    assert ([m] + rest[1..])[1..] == rest[1..];
    OnePass(m, rest[1..], lo, hi);
    assert FreeOf(rest)[1..] == FreeOf(rest[1..]);
  }

  /** Coalescing keeps the live cells. */
  lemma {:induction false} CoalesceLive(c: Cell, rest: seq<Cell>)
    ensures LiveOf(CoalesceFrom(c, rest)) == LiveOf([c]) + LiveOf(rest)
    decreases |rest|
  {
    if rest != [] {
      assert [rest[0]] + rest[1..] == rest;
      LiveOfConcat([rest[0]], rest[1..]);
      Singleton(c);
      Singleton(rest[0]);
      if c.free && rest[0].free {
        var m := Cell(Block(c.block.addr, c.block.size + rest[0].block.Extent()), true);
        Singleton(m);
        CoalesceLive(m, rest[1..]);
      } else {
        CoalesceLive(rest[0], rest[1..]);
        LiveOfConcat([c], CoalesceFrom(rest[0], rest[1..]));
      }
    }
  }

  /** A free cell followed by a live one does not touch the next free block. */
  lemma {:induction false} NoTouch(c: Cell, rest: seq<Cell>, lo: nat, hi: nat)
    requires Contiguous([c] + rest, lo, hi) && hi <= WRAP
    requires rest != [] && !rest[0].free
    ensures DefragFrom(c.block, FreeOf(rest), HEADER) == [c.block] + Defrag(FreeOf(rest), HEADER)
  {
    assert ([c] + rest)[1..] == rest;
    var f := FreeOf(rest[1..]);
    if f != [] {
      Bounds(rest[1..], rest[0].block.End(), hi);
      FreeOfMembers(rest[1..]);
      assert Cell(f[0], true) in rest[1..];
    }
  }

  /** With the intended overhead, freeing a live block of any tiled heap leaves a tiled heap
      in which no two free blocks touch, whether none, one or both neighbours were free. */
  lemma {:induction false} FreeCompacts(s: HeapState, b: Block, lo: nat, hi: nat)
    requires Tiled(s, lo, hi) && hi <= WRAP && b in s.live
    ensures Compact(Free(s, b, HEADER), lo, hi)
  {
    var cells: seq<Cell> :| IsLayout(cells, s, lo, hi);
    var k := InsertLayout(cells, s, b, lo, hi);
    var freed := cells[k := Cell(b, true)];
    CompactLayout(freed, HeapState(Insert(s.free, b), s.live - {b}), lo, hi);
  }

  lemma {:induction false} CompactLayout(cells: seq<Cell>, s: HeapState, lo: nat, hi: nat)
    requires IsLayout(cells, s, lo, hi) && hi <= WRAP
    ensures Compact(HeapState(Defrag(s.free, HEADER), s.live), lo, hi)
  {
    if cells == [] {
      assert Coalesced(cells);
    } else {
      assert [cells[0]] + cells[1..] == cells;
      LiveOfConcat([cells[0]], cells[1..]);
      CoalesceLive(cells[0], cells[1..]);
      OnePass(cells[0], cells[1..], lo, hi);
      CoalesceAligned(cells[0], cells[1..]);
      assert IsLayout(CoalesceFrom(cells[0], cells[1..]), HeapState(Defrag(s.free, HEADER), s.live), lo, hi) by {
        if !cells[0].free { assert FreeOf(cells) == FreeOf(cells[1..]); }
        else { assert FreeOf(cells)[1..] == FreeOf(cells[1..]); }
      }
    }
  }

  lemma {:induction false} CoalesceAligned(c: Cell, rest: seq<Cell>)
    requires AlignedCells([c] + rest)
    ensures AlignedCells(CoalesceFrom(c, rest))
    decreases |rest|
  {
    assert forall x :: x in [c] + rest <==> x == c || x in rest;
    if rest != [] {
      if c.free && rest[0].free {
        var m := Cell(Block(c.block.addr, c.block.size + rest[0].block.Extent()), true);
        assert forall x :: x in [m] + rest[1..] <==> x == m || x in rest[1..];
        CoalesceAligned(m, rest[1..]);
      } else {
        assert [rest[0]] + rest[1..] == rest;
        CoalesceAligned(rest[0], rest[1..]);
      }
    }
  }

  // ---------- Canonicity ----------

  /** Two coalesced layouts of one arena with the same live blocks are the same layout. */
  lemma {:induction false} SameLayout(a: seq<Cell>, b: seq<Cell>, lo: nat, hi: nat)
    requires Contiguous(a, lo, hi) && Coalesced(a)
    requires Contiguous(b, lo, hi) && Coalesced(b)
    requires LiveOf(a) == LiveOf(b)
    ensures a == b
    decreases |a|
  {
    EmptyLayout(a, lo, hi);
    EmptyLayout(b, lo, hi);
    if a != [] {
      SameFirst(a, b, lo, hi);
      LiveOfTail(a, lo, hi);
      LiveOfTail(b, lo, hi);
      SameLayout(a[1..], b[1..], a[0].block.End(), hi);
    }
  }

  lemma {:induction false} EmptyLayout(a: seq<Cell>, lo: nat, hi: nat)
    requires Contiguous(a, lo, hi)
    ensures a == [] <==> lo == hi
  {
    Bounds(a, lo, hi);
    assert a != [] ==> a[0] in a;
  }

  lemma {:induction false} LiveOfTail(a: seq<Cell>, lo: nat, hi: nat)
    requires a != [] && Contiguous(a, lo, hi)
    ensures LiveOf(a[1..]) == LiveOf(a) - {a[0].block}
  {
    Distinct(a, 0, lo, hi);
    assert a == [a[0]] + a[1..];
    LiveOfConcat([a[0]], a[1..]);
    Singleton(a[0]);
    assert forall x :: x in LiveOf(a[1..]) ==> Cell(x, false) in a[1..];
  }

  lemma {:induction false} SameFirst(a: seq<Cell>, b: seq<Cell>, lo: nat, hi: nat)
    requires a != [] && Contiguous(a, lo, hi) && Coalesced(a)
    requires b != [] && Contiguous(b, lo, hi) && Coalesced(b)
    requires LiveOf(a) == LiveOf(b)
    ensures a[0] == b[0]
  {
    if !a[0].free {
      LiveFirst(a, b, lo, hi);
    } else if !b[0].free {
      LiveFirst(b, a, lo, hi);
    } else if a[0].block.size < b[0].block.size {
      ShorterFree(a, b, lo, hi);
    } else if b[0].block.size < a[0].block.size {
      ShorterFree(b, a, lo, hi);
    }
  }

  /** A live block at the arena's start is the first cell of both layouts. */
  lemma {:induction false} LiveFirst(a: seq<Cell>, b: seq<Cell>, lo: nat, hi: nat)
    requires a != [] && Contiguous(a, lo, hi) && !a[0].free
    requires b != [] && Contiguous(b, lo, hi)
    requires LiveOf(a) == LiveOf(b)
    ensures a[0] == b[0]
  {
    assert a[0] in a;
    assert a[0].block in LiveOf(b);
    var j :| 0 <= j < |b| && b[j] == Cell(a[0].block, false);
    if j > 0 {
      Ordered(b, lo, hi, 0, j);
    }
  }

  /** Of two free first cells neither can be shorter: what follows it would be live. */
  lemma {:induction false} ShorterFree(a: seq<Cell>, b: seq<Cell>, lo: nat, hi: nat)
    requires a != [] && Contiguous(a, lo, hi) && Coalesced(a) && a[0].free
    requires b != [] && Contiguous(b, lo, hi) && b[0].free
    requires LiveOf(a) == LiveOf(b)
    ensures b[0].block.size <= a[0].block.size
  {
    if a[0].block.size < b[0].block.size {
      Bounds(b, lo, hi);
      assert b[0] in b;
      assert a[1..] != [];
      assert !a[1].free && a[1] in a && a[1].block.addr == a[0].block.End();
      assert a[1].block in LiveOf(a);
      var j :| 0 <= j < |b| && b[j] == Cell(a[1].block, false);
      Ordered(b, lo, hi, 0, j);
    }
  }

  /** The live blocks of a compact heap determine its free list. */
  lemma {:induction false} Canonical(s: HeapState, t: HeapState, lo: nat, hi: nat)
    requires Compact(s, lo, hi) && Compact(t, lo, hi)
    requires s.live == t.live
    ensures s.free == t.free
  {
    var a: seq<Cell> :| IsLayout(a, s, lo, hi) && Coalesced(a);
    var b: seq<Cell> :| IsLayout(b, t, lo, hi) && Coalesced(b);
    SameLayout(a, b, lo, hi);
  }
}
