/** The allocator of `src/kernel/heap.c` on values: a state is the free list, in list
    order, and the set of blocks handed out.  `HeapMemory` proves that the code, run on
    memory, computes exactly these functions. */
module HeapSpec {
  import opened Words

  const HEADER: int := 12             // ALLOC_HEADER_SZ: two link words and the size
  const NODE_SIZE: int := 16          // sizeof(alloc_node_t): the header and one payload word
  const MIN_SPLIT: int := HEADER + 32 // MIN_ALLOC_SZ

  /** A block by the address of its header and its recorded payload size. */
  datatype Block = Block(addr: nat, size: nat) {
    function Payload(): nat { addr + HEADER }
    function End(): nat { addr + HEADER + size }
    function Extent(): nat { HEADER + size }
  }

  datatype HeapState = HeapState(free: seq<Block>, live: set<Block>)

  /** `align_up(n, 4)` in 32-bit arithmetic: sizes above 2^32 - 4 wrap to 0. */
  function AlignUp(n: Word): (r: Word)
    ensures r % 4 == 0
    ensures n <= WRAP - 4 ==> n <= r < n + 4
    ensures n > WRAP - 4 ==> r == 0
  {
    Mod32(n + 3) / 4 * 4
  }

  /** The index of the first free block, from index `from` on, of at least `size` bytes. */
  function FitFrom(free: seq<Block>, size: nat, from: nat): (i: nat)
    requires from <= |free|
    ensures from <= i <= |free|
    ensures forall j :: from <= j < i ==> free[j].size < size
    ensures i < |free| ==> size <= free[i].size
    decreases |free| - from
  {
    if from == |free| || size <= free[from].size then from else FitFrom(free, size, from + 1)
  }

  function FirstFit(free: seq<Block>, size: nat): (i: nat)
    ensures i <= |free|
    ensures forall j :: 0 <= j < i ==> free[j].size < size
    ensures i < |free| ==> size <= free[i].size
  {
    FitFrom(free, size, 0)
  }

  predicate Splits(b: Block, size: nat) {
    b.size - size >= MIN_SPLIT
  }

  /** The part of `b` that is handed out for `size` bytes. */
  function Taken(b: Block, size: nat): Block {
    if Splits(b, size) then Block(b.addr, size) else b
  }

  /** What stays on the free list in place of `b`. */
  function Remainder(b: Block, size: nat): seq<Block>
    requires size <= b.size
  {
    if Splits(b, size) then [Block(b.addr + HEADER + size, b.size - size - HEADER)] else []
  }

  /** The free list after handing out `size` bytes of its block `i`. */
  function Carve(free: seq<Block>, i: nat, size: nat): seq<Block>
    requires i < |free| && size <= free[i].size
  {
    free[..i] + Remainder(free[i], size) + free[i + 1..]
  }

  /** `heap_malloc`: the block handed out, if any, and the new state. */
  function Malloc(s: HeapState, n: Word): (Option<Block>, HeapState) {
    var size := AlignUp(n);
    var i := FirstFit(s.free, size);
    if n == 0 || i == |s.free| then (None, s)
    else
      var b := Taken(s.free[i], size);
      (Some(b), HeapState(Carve(s.free, i, size), s.live + {b}))
  }

  /** The index of the first free block, from index `from` on, above address `a`. */
  function PositionFrom(free: seq<Block>, a: nat, from: nat): (p: nat)
    requires from <= |free|
    ensures from <= p <= |free|
    ensures forall j :: from <= j < p ==> free[j].addr <= a
    ensures p < |free| ==> a < free[p].addr
    decreases |free| - from
  {
    if from == |free| || a < free[from].addr then from else PositionFrom(free, a, from + 1)
  }

  function Position(free: seq<Block>, a: nat): (p: nat)
    ensures p <= |free|
    ensures forall j :: 0 <= j < p ==> free[j].addr <= a
    ensures p < |free| ==> a < free[p].addr
  {
    PositionFrom(free, a, 0)
  }

  function Insert(free: seq<Block>, b: Block): seq<Block> {
    var p := Position(free, b.addr);
    free[..p] + [b] + free[p..]
  }

  lemma {:induction false} InsertAt(free: seq<Block>, b: Block, i: nat)
    requires i <= |free|
    ensures var p := Position(free, b.addr);
            Insert(free, b)[i] == if i < p then free[i] else if i == p then b else free[i - 1]
  {
  }

  /** The test and the update of one merge, in 32-bit arithmetic. */
  predicate Touches(lb: Block, b: Block) {
    Mod32(lb.End()) == b.addr
  }

  function Merged(lb: Block, b: Block, overhead: nat): Block {
    Block(lb.addr, Mod32(lb.size + overhead + b.size))
  }

  /** The coalescing pass with `lb` behind it and `rest` ahead. */
  function DefragFrom(lb: Block, rest: seq<Block>, overhead: nat): (r: seq<Block>)
    ensures r != [] && r[0].addr == lb.addr
    decreases |rest|
  {
    if rest == [] then [lb]
    else if Touches(lb, rest[0]) then DefragFrom(Merged(lb, rest[0], overhead), rest[1..], overhead)
    else [lb] + DefragFrom(rest[0], rest[1..], overhead)
  }

  function Defrag(free: seq<Block>, overhead: nat): seq<Block> {
    if free == [] then [] else DefragFrom(free[0], free[1..], overhead)
  }

  /** `heap_free` of a live block; the code merges with `overhead` = NODE_SIZE, the layout
      it assumes everywhere else needs HEADER. */
  function Free(s: HeapState, b: Block, overhead: nat): HeapState {
    HeapState(Defrag(Insert(s.free, b), overhead), s.live - {b})
  }

  /** One call of the allocator, and a history of calls. */
  datatype Call = MallocCall(n: Word) | FreeCall(b: Block)

  function Step(s: HeapState, c: Call, overhead: nat): HeapState {
    match c
    case MallocCall(n) => Malloc(s, n).1
    case FreeCall(b) => Free(s, b, overhead)
  }

  /** Every freed pointer is live when it is freed: the one demand on callers. */
  predicate Legal(s: HeapState, calls: seq<Call>, overhead: nat)
    decreases |calls|
  {
    calls == [] ||
    ((calls[0].FreeCall? ==> calls[0].b in s.live) &&
     Legal(Step(s, calls[0], overhead), calls[1..], overhead))
  }

  function Run(s: HeapState, calls: seq<Call>, overhead: nat): HeapState
    decreases |calls|
  {
    if calls == [] then s else Run(Step(s, calls[0], overhead), calls[1..], overhead)
  }

  /** The heap after `heap_init` on the arena [lo, hi). */
  function Fresh(lo: nat, hi: nat): HeapState
    requires lo + HEADER <= hi
  {
    HeapState([Block(lo, hi - lo - HEADER)], {})
  }
}
