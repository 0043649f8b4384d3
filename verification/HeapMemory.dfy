/** `src/kernel/heap.c` on memory: headers of three words (`next`, `prev`, `size`) at each
    block's address, the free list threaded through them.  Every operation is proved to
    compute the functions of `HeapSpec` and to write nothing but header words. */
module HeapMemory {
  import opened Words
  import opened HeapSpec
  import opened HeapTiling
  import opened HeapHistory
  import opened HeapDrift
  import opened IntrusiveList

  // ---------- Where the headers are ----------

  ghost function RingOf(head: int, free: seq<Block>): (r: seq<int>)
    ensures |r| == |free| + 1 && r[0] == head
    ensures forall i :: 0 <= i < |free| ==> r[i + 1] == free[i].addr
  {
    [head] + seq(|free|, i requires 0 <= i < |free| => free[i].addr)
  }

  ghost predicate HeadersApart(b: Block, c: Block) {
    b.addr + HEADER <= c.addr || c.addr + HEADER <= b.addr
  }

  /** The header of `b` lies aligned in memory of `len` bytes, clear of the list head. */
  ghost predicate HeaderFits(len: nat, head: int, b: Block) {
    && 0 < b.addr && b.addr % 4 == 0 && b.addr + HEADER <= len && b.Payload() < WRAP
    && (b.addr + HEADER <= head || head + 8 <= b.addr)
  }

  /** Headers do not overlap each other or the list head, and the free list ascends. */
  ghost predicate Placed(len: nat, head: int, s: HeapState) {
    && len <= WRAP && 0 < head && head % 4 == 0 && head + 8 <= len
    && (forall b :: Has(s, b) ==> HeaderFits(len, head, b))
    && HeadersAscend(s.free)
    && (forall f, l {:trigger HeadersApart(f, l)} :: f in s.free && l in s.live ==> HeadersApart(f, l))
    && (forall l, k {:trigger HeadersApart(l, k)} :: l in s.live && k in s.live && l != k ==> HeadersApart(l, k))
  }

  ghost predicate SameBlocks(s: HeapState, t: HeapState) {
    forall b :: Has(s, b) <==> Has(t, b)
  }

  ghost predicate Below(b: Block, c: Block) {
    b.addr + HEADER <= c.addr
  }

  lemma {:induction false} SizedTransfer(m: seq<Word>, s: HeapState, t: HeapState)
    requires AllSized(m, s) && SameBlocks(s, t)
    ensures AllSized(m, t)
  {
  }

  ghost predicate HeadersAscend(free: seq<Block>) {
    forall i, j {:trigger Below(free[i], free[j])} :: 0 <= i < j < |free| ==> Below(free[i], free[j])
  }

  ghost predicate Sized(m: seq<Word>, b: Block) {
    0 <= b.addr + 8 < |m| && m[b.addr + 8] == b.size
  }

  ghost predicate AllSized(m: seq<Word>, s: HeapState) {
    forall b :: Has(s, b) ==> Sized(m, b)
  }

  /** Memory `m`, with the list head at `head`, holds the heap state `s`. */
  ghost predicate Represents(m: seq<Word>, head: int, s: HeapState) {
    && Placed(|m|, head, s)
    && Linked(m, RingOf(head, s.free))
    && AllSized(m, s)
  }

  ghost function Addrs(free: seq<Block>): set<int> {
    set f | f in free :: f.addr
  }

  /** Memory changed at most in the list head and in the headers at `hs`. */
  ghost predicate OnlyHeaders(m: seq<Word>, m': seq<Word>, head: int, hs: set<int>) {
    |m'| == |m| &&
    forall a {:trigger NoHeader(head, hs, a)} :: 0 <= a < |m| && NoHeader(head, hs, a) ==> m'[a] == m[a]
  }

  ghost predicate NoHeader(head: int, hs: set<int>, a: int) {
    !(head <= a < head + 8) && forall h :: h in hs ==> !(h <= a < h + HEADER)
  }

  /** The header a malloc of `n` bytes would split off lies in memory and is clear of every
      other header.  A tiled heap always has this room (TiledHasRoom). */
  ghost predicate HasRoom(len: nat, head: int, s: HeapState, n: Word) {
    Malloc(s, n).0.Some? ==> Placed(len, head, Malloc(s, n).1)
  }

  lemma {:induction false} TiledHasRoom(len: nat, head: int, s: HeapState, n: Word, lo: nat, hi: nat)
    requires Placed(len, head, s) && Tiled(s, lo, hi)
    requires 0 < lo && hi <= len && hi < WRAP && (hi <= head || head + 8 <= lo)
    ensures HasRoom(len, head, s, n)
  {
    MallocKeepsTiled(s, n, lo, hi);
    TiledIsPlaced(len, head, Malloc(s, n).1, lo, hi);
  }

  /** Every malloc of the history has room for the header it splits off. */
  ghost predicate AllHaveRoom(len: nat, head: int, s: HeapState, calls: seq<Call>, overhead: nat)
    decreases |calls|
  {
    calls != [] ==>
      && (calls[0].MallocCall? ==> HasRoom(len, head, s, calls[0].n))
      && AllHaveRoom(len, head, Step(s, calls[0], overhead), calls[1..], overhead)
  }

  /** With the intended overhead every malloc of every history has room. */
  lemma {:induction false} CompactHasRoom(len: nat, head: int, s: HeapState, calls: seq<Call>, lo: nat, hi: nat)
    requires Compact(s, lo, hi) && Legal(s, calls, HEADER) && 0 < head && head % 4 == 0 && head + 8 <= len <= WRAP
    requires 0 < lo && hi <= len && hi < WRAP && (hi <= head || head + 8 <= lo)
    ensures AllHaveRoom(len, head, s, calls, HEADER)
    decreases |calls|
  {
    if calls != [] {
      assert Tiled(s, lo, hi);
      TiledIsPlaced(len, head, s, lo, hi);
      match calls[0] {
        case MallocCall(n) =>
          TiledHasRoom(len, head, s, n, lo, hi);
          MallocKeepsCompact(s, n, lo, hi);
        case FreeCall(b) =>
          FreeCompacts(s, b, lo, hi);
      }
      CompactHasRoom(len, head, Step(s, calls[0], HEADER), calls[1..], lo, hi);
    }
  }

  /** So has every malloc of a history of the code as written in which no free has a free
      neighbour. */
  lemma {:induction false} LiteralHasRoom(len: nat, head: int, s: HeapState, calls: seq<Call>, lo: nat, hi: nat)
    requires Compact(s, lo, hi) && Legal(s, calls, NODE_SIZE) && NeverAdjoins(s, calls)
    requires 0 < head && head % 4 == 0 && head + 8 <= len <= WRAP
    requires 0 < lo && hi <= len && hi < WRAP && (hi <= head || head + 8 <= lo)
    ensures AllHaveRoom(len, head, s, calls, NODE_SIZE)
    decreases |calls|
  {
    if calls != [] {
      assert Tiled(s, lo, hi);
      TiledIsPlaced(len, head, s, lo, hi);
      match calls[0] {
        case MallocCall(n) =>
          TiledHasRoom(len, head, s, n, lo, hi);
          MallocKeepsCompact(s, n, lo, hi);
        case FreeCall(b) =>
          LiteralFreeTiles(s, b, lo, hi);
          FreeCompacts(s, b, lo, hi);
      }
      LiteralHasRoom(len, head, Step(s, calls[0], NODE_SIZE), calls[1..], lo, hi);
    }
  }

  /** As written there are histories without room: after `k` rounds a split can put its header
      past the end of the original block, over a list head that stands there. */
  lemma {:induction false} SplitOverHead(len: nat, head: int, f: Block, n: Word, k: nat, m: Word)
    requires SplitsOff(f, n) && f.size + 4 * k < WRAP && m != 0
    requires AlignUp(m) + 44 <= f.size + 4 * k
    requires var h := f.Payload() + AlignUp(m); h < head + 8 && head < h + HEADER
    ensures !HasRoom(len, head, Rounds(HeapState([f], {}), n, NODE_SIZE, k), m)
  {
    var b := Block(f.addr, f.size + 4 * k);
    RoundsDrift(f, n, k);
    assert FirstFit([b], AlignUp(m)) == 0;
    var r := Remainder(b, AlignUp(m))[0];
    assert Carve([b], 0, AlignUp(m)) == [r];
    assert r in Malloc(HeapState([b], {}), m).1.free;
    assert Has(Malloc(HeapState([b], {}), m).1, r) && !HeaderFits(len, head, r);
  }

  /** An input: on the arena [16, 1028) with the list head behind it, nine rounds of 100 bytes
      and a request for 992 write the size of the block split off into the list head. */
  lemma {:induction false} SplitOverHeadAt(len: nat)
    ensures var s := Rounds(Fresh(16, 1028), 100, NODE_SIZE, 9);
            !HasRoom(len, 1028, s, 992)
            && Malloc(s, 992).1.free == [Block(1020, 32)] && Malloc(s, 992).1.free[0].addr + 8 == 1028
  {
    hide Rounds, Placed;
    var f := Block(16, 1000);
    RoundsDrift(f, 100, 9);
    SplitOverHead(len, 1028, f, 100, 9, 992);
    assert Fresh(16, 1028) == HeapState([f], {});
    assert FirstFit([Block(16, 1036)], 992) == 0;
    assert Carve([Block(16, 1036)], 0, 992) == [Block(1020, 32)];
  }

  lemma {:induction false} TiledIsPlaced(len: nat, head: int, s: HeapState, lo: nat, hi: nat)
    requires Tiled(s, lo, hi) && 0 < lo && hi <= len <= WRAP && hi < WRAP
    requires 0 < head && head % 4 == 0 && head + 8 <= len && (hi <= head || head + 8 <= lo)
    ensures Placed(len, head, s)
  {
    TiledGeometry(s, lo, hi);
    forall f, l | f in s.free && l in s.live ensures HeadersApart(f, l) {
      assert Apart(f, l);
    }
    forall l, k | l in s.live && k in s.live && l != k ensures HeadersApart(l, k) {
      assert Has(s, l) && Has(s, k) && Apart(l, k);
    }
  }

  lemma {:induction false} FreeBlockAt(m: seq<Word>, head: int, s: HeapState, i: nat)
    requires Represents(m, head, s) && i < |s.free|
    ensures Has(s, s.free[i]) && Sized(m, s.free[i]) && HeaderFits(|m|, head, s.free[i])
  {
    assert s.free[i] in s.free;
  }

  // ---------- Steps on memory ----------

  /** A memory that agrees on the list head and on all headers holds the same state. */
  lemma {:induction false} RepresentsFrame(m: seq<Word>, m': seq<Word>, head: int, s: HeapState)
    requires Represents(m, head, s) && |m'| == |m|
    requires m'[head] == m[head] && m'[head + 4] == m[head + 4]
    requires forall b :: Has(s, b) ==> SameHeader(m, m', b)
    ensures Represents(m', head, s)
  {
    var ring := RingOf(head, s.free);
    forall i | 0 <= i < |ring| ensures m'[ring[i]] == m[ring[i]] && m'[ring[i] + 4] == m[ring[i] + 4] {
      if i > 0 {
        FreeBlockAt(m, head, s, i - 1);
        assert SameHeader(m, m', s.free[i - 1]);
      }
    }
    LinkedFrame(m, m', ring);
    forall b | Has(s, b) ensures Sized(m', b) {
      assert SameHeader(m, m', b) && Sized(m, b);
    }
  }

  ghost predicate SameHeader(m: seq<Word>, m': seq<Word>, b: Block) {
    b.addr + HEADER <= |m| == |m'| && m'[b.addr] == m[b.addr] && m'[b.addr + 4] == m[b.addr + 4] && m'[b.addr + 8] == m[b.addr + 8]
  }

  /** A word at offset 8 of a header is no word of a node of the ring. */
  lemma {:induction false} SizeApart(len: nat, head: int, s: HeapState, b: Block, i: nat)
    requires Placed(len, head, s) && Has(s, b) && i <= |s.free|
    ensures b.addr + 8 != RingOf(head, s.free)[i] && b.addr + 8 != RingOf(head, s.free)[i] + 4
  {
    if i > 0 && b != s.free[i - 1] {
      DistinctApart(len, head, s, b, s.free[i - 1]);
    }
  }

  lemma {:induction false} DistinctApart(len: nat, head: int, s: HeapState, b: Block, c: Block)
    requires Placed(len, head, s) && Has(s, b) && Has(s, c) && b != c
    ensures HeadersApart(b, c)
  {
    if b in s.free && c in s.free {
      var i :| 0 <= i < |s.free| && s.free[i] == b;
      var j :| 0 <= j < |s.free| && s.free[j] == c;
      assert if i < j then Below(s.free[i], s.free[j]) else Below(s.free[j], s.free[i]);
    } else if c in s.free {
      assert HeadersApart(c, b);
    }
  }

  /** Writing the size word of a block keeps the ring linked. */
  lemma {:induction false} SizeWriteLinks(m: seq<Word>, m': seq<Word>, head: int, s: HeapState, b: Block, ring: seq<int>)
    requires Placed(|m|, head, s) && Has(s, b) && SameButOne(m, m', b.addr + 8)
    requires Linked(m, ring) && forall a :: a in ring ==> a in RingOf(head, s.free)
    ensures Linked(m', ring)
  {
    forall i | 0 <= i < |ring| ensures m'[ring[i]] == m[ring[i]] && m'[ring[i] + 4] == m[ring[i] + 4] {
      assert ring[i] in ring;
      var r := RingOf(head, s.free);
      var j :| 0 <= j < |r| && r[j] == ring[i];
      SizeApart(|m|, head, s, b, j);
    }
    LinkedFrame(m, m', ring);
  }

  /** The free list with block `i` split in two, both still on it. */
  function SplitList(free: seq<Block>, i: nat, size: nat): seq<Block>
    requires i < |free| && size <= free[i].size
  {
    free[..i] + [Block(free[i].addr, size)] + Remainder(free[i], size) + free[i + 1..]
  }

  /** What stands where after a split. */
  lemma {:induction false} SplitPlaces(free: seq<Block>, i: nat, size: nat)
    requires i < |free| && size <= free[i].size && Splits(free[i], size)
    ensures var t := SplitList(free, i, size);
      && |t| == |free| + 1 && t[i] == Block(free[i].addr, size) && t[i + 1] == Remainder(free[i], size)[0]
      && (forall j :: 0 <= j < i ==> t[j] == free[j]) && (forall j :: i + 1 < j <= |free| ==> t[j] == free[j - 1])
  {
  }

  lemma {:induction false} SplitRing(head: int, free: seq<Block>, i: nat, size: nat)
    requires i < |free| && size <= free[i].size && Splits(free[i], size)
    ensures SplitList(free, i, size)[i] == Block(free[i].addr, size)
    ensures SplitList(free, i, size)[i + 1] == Remainder(free[i], size)[0]
    ensures RingOf(head, SplitList(free, i, size)) == Inserted(RingOf(head, free), i + 1, free[i].addr + HEADER + size)
    ensures forall a :: a in RingOf(head, free) ==> a in RingOf(head, SplitList(free, i, size))
  {
    hide SplitList, RingOf;
    SplitPlaces(free, i, size);
    var list := SplitList(free, i, size);
    var r, t := RingOf(head, free), RingOf(head, list);
    var u := Inserted(r, i + 1, free[i].addr + HEADER + size);
    forall j | 0 <= j < |t| ensures t[j] == u[j] {
      if 0 < j <= i {
        assert t[j] == list[j - 1].addr == free[j - 1].addr;
      } else if j > i {
        assert t[j] == list[j - 1].addr;
        assert j > i + 2 ==> list[j - 1] == free[j - 2] && u[j] == r[j - 1];
      }
    }
    assert t == u;
    forall a | a in r ensures a in t {
      var j :| 0 <= j < |r| && r[j] == a;
      assert u[if j <= i + 1 then j else j + 1] == a;
    }
  }

  lemma {:induction false} RingNodes(m: seq<Word>, head: int, s: HeapState)
    requires Placed(|m|, head, s)
    ensures Nodes(m, RingOf(head, s.free))
  {
    var r := RingOf(head, s.free);
    forall i | 0 <= i < |r| ensures IsNode(m, r[i]) && (i > 0 ==> Separate(r[0], r[i])) {
      if i > 0 { assert Has(s, s.free[i - 1]); }
    }
    forall i, j | 0 <= i < j < |r| ensures Separate(r[i], r[j]) {
      if i > 0 { assert Below(s.free[i - 1], s.free[j - 1]); }
    }
  }

  /** Rewriting links of ring nodes keeps every recorded size. */
  lemma {:induction false} NodeWrites(m: seq<Word>, m': seq<Word>, head: int, s: HeapState, n: int, p: int, q: int)
    requires Placed(|m|, head, s) && SameBut(m, m', n, n + 4, p, q + 4)
    requires var r := RingOf(head, s.free); n in r && p in r && q in r
    ensures forall b :: Has(s, b) ==> m'[b.addr + 8] == m[b.addr + 8]
  {
    var r := RingOf(head, s.free);
    var i :| 0 <= i < |r| && r[i] == n;
    var j :| 0 <= j < |r| && r[j] == p;
    var k :| 0 <= k < |r| && r[k] == q;
    forall b | Has(s, b) ensures m'[b.addr + 8] == m[b.addr + 8] {
      SizeApart(|m|, head, s, b, i);
      SizeApart(|m|, head, s, b, j);
      SizeApart(|m|, head, s, b, k);
    }
  }

  /** Recording the sizes of two blocks. */
  lemma {:induction false} SizeWrites(m: seq<Word>, m': seq<Word>, head: int, s: HeapState, t: Block, r: Block)
    requires Placed(|m|, head, s) && Has(s, t) && Has(s, r)
    requires SameBut(m, m', t.addr + 8, r.addr + 8, r.addr + 8, r.addr + 8) && Sized(m', t) && Sized(m', r)
    requires forall b :: Has(s, b) ==> b == t || b == r || Sized(m, b)
    ensures AllSized(m', s)
  {
    forall b | Has(s, b) && b != t && b != r ensures Sized(m', b) {
      DistinctApart(|m|, head, s, b, t);
      DistinctApart(|m|, head, s, b, r);
    }
  }

  lemma {:induction false} SplitBlocks(s: HeapState, i: nat, size: nat)
    requires i < |s.free| && size <= s.free[i].size && Splits(s.free[i], size)
    ensures var s2 := HeapState(SplitList(s.free, i, size), s.live);
            && Has(s2, Block(s.free[i].addr, size)) && Has(s2, Remainder(s.free[i], size)[0])
            && forall b :: Has(s2, b) ==> b == Block(s.free[i].addr, size) || b == Remainder(s.free[i], size)[0] || Has(s, b)
  {
    var s2 := HeapState(SplitList(s.free, i, size), s.live);
    SplitRing(0, s.free, i, size);
    assert s2.free[i] in s2.free && s2.free[i + 1] in s2.free;
  }

  /** Taking block `i` off the free list. */
  function Unlinked(s: HeapState, i: nat): HeapState
    requires i < |s.free|
  {
    HeapState(s.free[..i] + s.free[i + 1..], s.live + {s.free[i]})
  }

  lemma {:induction false} UnlinkedPlaced(len: nat, head: int, s: HeapState, i: nat)
    requires Placed(len, head, s) && i < |s.free|
    ensures Placed(len, head, Unlinked(s, i)) && SameBlocks(s, Unlinked(s, i))
    ensures RingOf(head, Unlinked(s, i).free) == Deleted(RingOf(head, s.free), i + 1)
  {
    var x, w := s.free[i], s.free[..i] + s.free[i + 1..];
    UnlinkedMembers(s.free, i);
    HandOver(len, head, s, x, w);
    UnlinkedRing(head, s.free, i);
  }

  lemma {:induction false} UnlinkedRing(head: int, free: seq<Block>, i: nat)
    requires i < |free|
    ensures RingOf(head, free[..i] + free[i + 1..]) == Deleted(RingOf(head, free), i + 1)
  {
    hide RingOf;
    var w := free[..i] + free[i + 1..];
    var r, t := RingOf(head, free), RingOf(head, w);
    forall j | 0 <= j < |t| ensures t[j] == Deleted(r, i + 1)[j] {
      if 0 < j <= i {
        assert t[j] == w[j - 1].addr == free[j - 1].addr;
      } else if j > i {
        assert j > 0 ==> t[j] == w[j - 1].addr == free[j].addr;
        assert j > 0 ==> Deleted(r, i + 1)[j] == r[j + 1];
      }
    }
    assert t == Deleted(r, i + 1);
  }

  lemma {:induction false} UnlinkedMembers(free: seq<Block>, i: nat)
    requires i < |free| && HeadersAscend(free)
    ensures var w := free[..i] + free[i + 1..];
            && HeadersAscend(w)
            && (forall f :: f in free <==> f == free[i] || f in w)
            && forall f :: f in w ==> HeadersApart(f, free[i])
  {
    var w := free[..i] + free[i + 1..];
    assert forall j :: 0 <= j < |w| ==> w[j] == free[if j < i then j else j + 1];
    forall j, k | 0 <= j < k < |w| ensures Below(w[j], w[k]) {
      assert Below(free[if j < i then j else j + 1], free[if k < i then k else k + 1]);
    }
    forall f | f in w ensures HeadersApart(f, free[i]) {
      var j :| 0 <= j < |w| && w[j] == f;
      assert if j < i then Below(free[j], free[i]) else Below(free[i], free[j + 1]);
    }
    assert free == free[..i] + [free[i]] + free[i + 1..];
  }

  /** A free block handed over to the live ones, the rest of the list being `w`. */
  lemma {:induction false} HandOver(len: nat, head: int, s: HeapState, x: Block, w: seq<Block>)
    requires Placed(len, head, s) && x in s.free && HeadersAscend(w)
    requires forall f :: f in s.free <==> f == x || f in w
    requires forall f :: f in w ==> HeadersApart(f, x)
    ensures Placed(len, head, HeapState(w, s.live + {x}))
    ensures SameBlocks(s, HeapState(w, s.live + {x}))
  {
    assert forall l :: l in s.live ==> HeadersApart(x, l);
  }

  /** If the state after a split is well placed, so is the one with both parts on the list. */
  lemma {:induction false} SplitPlaced(len: nat, head: int, s: HeapState, i: nat, size: nat)
    requires Placed(len, head, s) && i < |s.free| && size <= s.free[i].size && Splits(s.free[i], size)
    requires Placed(len, head, HeapState(Carve(s.free, i, size), s.live + {Taken(s.free[i], size)}))
    ensures Placed(len, head, HeapState(SplitList(s.free, i, size), s.live))
    ensures Unlinked(HeapState(SplitList(s.free, i, size), s.live), i) ==
            HeapState(Carve(s.free, i, size), s.live + {Taken(s.free[i], size)})
  {
    var t := Taken(s.free[i], size);
    var u := HeapState(Carve(s.free, i, size), s.live + {t});
    var w := SplitList(s.free, i, size);
    assert w[..i] + w[i + 1..] == u.free && w[i] == t;
    SplitAscends(s.free, i, size);
    assert forall f :: f in w ==> f == t || f in u.free;
    assert s.free[i] in s.free;
    BothOnList(len, head, s, u, t, w);
  }

  lemma {:induction false} BothOnList(len: nat, head: int, s: HeapState, u: HeapState, t: Block, w: seq<Block>)
    requires Placed(len, head, s) && Placed(len, head, u) && u.live == s.live + {t}
    requires HeadersAscend(w) && forall f :: f in w ==> f == t || f in u.free
    requires exists f :: f in s.free && f.addr == t.addr
    ensures Placed(len, head, HeapState(w, s.live))
  {
    var x :| x in s.free && x.addr == t.addr;
    forall f, l | f in w && l in s.live ensures HeadersApart(f, l) {
      assert HeadersApart(x, l);
      assert l in u.live;
    }
  }

  lemma {:induction false} SplitAddrs(free: seq<Block>, i: nat, size: nat)
    requires i < |free| && size <= free[i].size && Splits(free[i], size)
    ensures Addrs(SplitList(free, i, size)) <= Addrs(free) + Addrs(Carve(free, i, size))
  {
    assert free[i] in free;
    assert forall f :: f in SplitList(free, i, size) ==> f == Block(free[i].addr, size) || f in Carve(free, i, size);
  }

  lemma {:induction false} SplitAscends(free: seq<Block>, i: nat, size: nat)
    requires i < |free| && size <= free[i].size && Splits(free[i], size)
    requires HeadersAscend(free) && HeadersAscend(Carve(free, i, size))
    ensures HeadersAscend(SplitList(free, i, size))
  {
    var c, w := Carve(free, i, size), SplitList(free, i, size);
    assert forall j :: 0 <= j < |w| && j != i ==> w[j] == c[if j < i then j else j - 1];
    assert forall j :: 0 <= j < i ==> w[j] == free[j];
    assert forall j :: i + 1 < j < |w| ==> w[j] == free[j - 1];
    forall j, k | 0 <= j < k < |w| ensures Below(w[j], w[k]) {
      if j == i {
        assert k == i + 1 || Below(free[i], free[k - 1]);
      } else if k == i {
        assert Below(free[j], free[i]);
      } else {
        assert Below(c[if j < i then j else j - 1], c[if k < i then k else k - 1]);
      }
    }
  }

  /** The words of a ring node lie in the list head or in the header of its free block. */
  lemma {:induction false} NodeInHeader(head: int, s: HeapState, n: int)
    requires n in RingOf(head, s.free)
    ensures n == head || n in Addrs(s.free)
  {
    var r := RingOf(head, s.free);
    var i :| 0 <= i < |r| && r[i] == n;
    if i > 0 { assert s.free[i - 1] in s.free; }
  }

  /** A list operation on ring nodes that leaves the ring of `t` linked leaves memory holding `t`. */
  lemma {:induction false} RelinkHolds(m: seq<Word>, m': seq<Word>, head: int, t: HeapState, n: int, p: int, q: int)
    requires Placed(|m|, head, t) && AllSized(m, t)
    requires SameBut(m, m', n, n + 4, p, q + 4) && Linked(m', RingOf(head, t.free))
    requires var r := RingOf(head, t.free); n in r && p in r && q in r
    ensures Represents(m', head, t)
    ensures OnlyHeaders(m, m', head, Addrs(t.free))
  {
    NodeWrites(m, m', head, t, n, p, q);
    NodesOnlyHeaders(m, m', head, t, n, p, q);
  }

  /** A free list became another by writing only headers it already had. */
  ghost predicate Shrunk(m: seq<Word>, m': seq<Word>, head: int, free: seq<Block>, free': seq<Block>) {
    OnlyHeaders(m, m', head, Addrs(free)) && Addrs(free') <= Addrs(free)
  }

  lemma {:induction false} ShrunkTrans(m0: seq<Word>, m1: seq<Word>, m2: seq<Word>, head: int, f0: seq<Block>, f1: seq<Block>, f2: seq<Block>)
    requires Shrunk(m0, m1, head, f0, f1) && Shrunk(m1, m2, head, f1, f2)
    ensures Shrunk(m0, m2, head, f0, f2)
  {
    OnlyHeadersTrans(m0, m1, m2, head, Addrs(f0), Addrs(f1), Addrs(f0));
  }

  lemma {:induction false} OnlyHeadersTrans(m0: seq<Word>, m1: seq<Word>, m2: seq<Word>, head: int, hs: set<int>, ks: set<int>, all: set<int>)
    requires OnlyHeaders(m0, m1, head, hs) && OnlyHeaders(m1, m2, head, ks) && hs <= all && ks <= all
    ensures OnlyHeaders(m0, m2, head, all)
  {
    assert forall a :: NoHeader(head, all, a) ==> NoHeader(head, hs, a) && NoHeader(head, ks, a);
  }

  /** A list operation on nodes of the ring writes only headers of free blocks. */
  lemma {:induction false} NodesOnlyHeaders(m: seq<Word>, m': seq<Word>, head: int, s: HeapState, n: int, p: int, q: int)
    requires SameBut(m, m', n, n + 4, p, q + 4)
    requires var r := RingOf(head, s.free); n in r && p in r && q in r
    ensures OnlyHeaders(m, m', head, Addrs(s.free))
  {
    NodeInHeader(head, s, n);
    NodeInHeader(head, s, p);
    NodeInHeader(head, s, q);
  }

  class Heap {
    const mem: array<Word>
    const head: Word       // &free_list
    const overhead: nat    // what one merge adds to the size: NODE_SIZE as written
    ghost const lo: nat    // the arena
    ghost const hi: nat
    ghost var st: HeapState

    /** Memory holds the state `st`. */
    ghost predicate Valid()
      reads this, mem
    {
      Represents(mem[..], head, st)
    }

    /** The arena is tiled and coalesced, and lies clear of the list head. */
    ghost predicate Sound()
      reads this
    {
      0 < lo && hi <= mem.Length && hi < WRAP && (hi <= head || head + 8 <= lo) && Compact(st, lo, hi)
    }

    /** `heap_init` with the static list head: the arena's first aligned byte starts one
        free block that reaches to the arena's end. */
    constructor (memory: array<Word>, freeList: Word, addr: Word, size: Word, mergeOverhead: nat)
      requires memory.Length <= WRAP && freeList % 4 == 0 && 0 < freeList && freeList + 8 <= memory.Length
      requires 0 < addr && AlignUp(addr) + HEADER <= addr + size <= memory.Length && addr + size < WRAP
      requires AlignUp(addr) >= addr && (addr + size <= freeList || freeList + 8 <= AlignUp(addr))
      modifies memory
      ensures mem == memory && head == freeList && overhead == mergeOverhead
      ensures lo == AlignUp(addr) && hi == addr + size
      ensures Valid() && Sound() && st == Fresh(lo, hi)
      ensures OnlyHeaders(old(memory[..]), memory[..], freeList, {AlignUp(addr) as int})
    {
      mem, head, overhead := memory, freeList, mergeOverhead;
      lo, hi := AlignUp(addr), addr + size;
      st := HeapState([], {});
      new;
      ListInit(mem, head);
      var blk: Word := Mod32(addr + 3) / 4 * 4;
      ghost var m := mem[..];
      mem[blk + 8] := addr + size - blk - HEADER;
      LinkedFrame(m, mem[..], [head as int]);
      ListAdd(mem, blk, head, [head as int]);
      st := Fresh(lo, hi);
      FreshCompact(lo, hi);
      assert st.free[0] in st.free;
      assert RingOf(head, st.free) == Inserted([head as int], 0, blk);
    }

    // ---------- heap_malloc ----------

    /** The search loop: the first free block with room for `size` bytes. */
    method FindFit(size: Word) returns (blk: Word)
      requires Valid()
      ensures var i := FirstFit(st.free, size); blk == if i < |st.free| then st.free[i].addr else head
      ensures blk == head <==> FirstFit(st.free, size) == |st.free|
    {
      ghost var i, k := 0, FirstFit(st.free, size);
      blk := Advance(head, 0);
      while blk != head
        invariant 0 <= i <= k && (blk == head <==> i == |st.free|)
        invariant i < |st.free| ==> blk == st.free[i].addr
        decreases |st.free| - i
      {
        FreeBlockAt(mem[..], head, st, i);
        if mem[blk + 8] >= size {
          break;
        }
        i := i + 1;
        blk := Advance(blk, i);
      }
    }

    /** `pos->next` for the list head (`i` = 0) or for block `i` - 1. */
    method Advance(pos: Word, ghost i: nat) returns (next: Word)
      requires Valid() && i <= |st.free| && pos == if i == 0 then head else st.free[i - 1].addr
      ensures next == head <==> i == |st.free|
      ensures i < |st.free| ==> next == st.free[i].addr
    {
      ghost var ring := RingOf(head, st.free);
      assert Edge(mem[..], ring[i], Succ(ring, i));
      if i < |st.free| {
        assert Has(st, st.free[i]);
      }
      next := mem[pos];
    }

    /** `list_del` of block `i`, which is handed out. */
    method Unlink(blk: Word, ghost i: nat)
      requires Valid() && i < |st.free| && blk == st.free[i].addr
      modifies this`st, mem
      ensures Valid() && st == Unlinked(old(st), i)
      ensures OnlyHeaders(old(mem[..]), mem[..], head, Addrs(old(st.free)))
    {
      ghost var m, ring := mem[..], RingOf(head, st.free);
      ListDel(mem, blk, ring, i + 1);
      ghost var q := Succ(ring, i + 1);
      assert ring[i + 1] in ring && ring[i] in ring && q in ring;
      NodeWrites(m, mem[..], head, st, blk, ring[i], q);
      NodesOnlyHeaders(m, mem[..], head, st, blk, ring[i], q);
      UnlinkedPlaced(mem.Length, head, st, i);
      st := Unlinked(st, i);
    }

    /** `heap_malloc`: NULL or the payload address of the block that `Malloc` vends. */
    method HeapMalloc(n: Word) returns (ptr: Word)
      requires Valid() && HasRoom(mem.Length, head, st, n)
      modifies this`st, mem
      ensures Valid() && st == Malloc(old(st), n).1
      ensures match Malloc(old(st), n).0 {
                case None => ptr == NULL && mem[..] == old(mem[..])
                case Some(b) => ptr == b.Payload() && ptr != NULL
              }
      ensures OnlyHeaders(old(mem[..]), mem[..], head, Addrs(old(st.free)) + Addrs(st.free))
      ensures old(Sound()) ==> Sound() && PayloadsKept(old(mem[..]), mem[..], old(st.live)) && ArenaOnly(old(mem[..]), mem[..], head, lo, hi)
    {
      ptr := NULL;
      ghost var m, s := mem[..], st;
      if Sound() {
        assert Tiled(s, lo, hi);
        MallocKeepsCompact(s, n, lo, hi);
      }
      if n > 0 {
        var size: Word := Mod32(n + 3) / 4 * 4;
        ghost var i := FirstFit(st.free, size);
        var blk := FindFit(size);
        if blk != head {
          FreeBlockAt(mem[..], head, st, i);
          ptr := blk + HEADER;
          TakeBlock(blk, size, i);
          if old(Sound()) { MallocKeepsPayloads(m, mem[..], head, s, n, lo, hi); }
        }
      }
    }

    /** Splitting the block found, if it is large enough, and taking it off the list. */
    method TakeBlock(blk: Word, size: Word, ghost i: nat)
      requires Valid() && i < |st.free| && blk == st.free[i].addr && size <= st.free[i].size
      requires Placed(mem.Length, head, HeapState(Carve(st.free, i, size), st.live + {Taken(st.free[i], size)}))
      modifies this`st, mem
      ensures Valid()
      ensures st == HeapState(Carve(old(st.free), i, size), old(st.live) + {Taken(old(st.free[i]), size)})
      ensures OnlyHeaders(old(mem[..]), mem[..], head, Addrs(old(st.free)) + Addrs(st.free))
    {
      ghost var s, m := st, mem[..];
      FreeBlockAt(m, head, st, i);
      if mem[blk + 8] - size >= MIN_SPLIT {
        SplitPlaced(mem.Length, head, s, i, size);
        SplitRing(head, s.free, i, size);
        Split(blk, size, i);
        SplitAddrs(s.free, i, size);
      } else {
        assert OnlyHeaders(m, mem[..], head, Addrs(st.free));
      }
      ghost var m1, a1 := mem[..], Addrs(st.free);
      Unlink(blk, i);
      OnlyHeadersTrans(m, m1, mem[..], head, a1, a1, Addrs(s.free) + Addrs(st.free));
    }

    /** Splitting block `i` of the free list after `size` bytes. */
    method Split(blk: Word, size: Word, ghost i: nat)
      requires Valid() && i < |st.free| && blk == st.free[i].addr && size <= st.free[i].size
      requires Splits(st.free[i], size)
      requires Placed(mem.Length, head, HeapState(SplitList(st.free, i, size), st.live))
      modifies this`st, mem
      ensures Valid() && st == HeapState(SplitList(old(st.free), i, size), old(st.live))
      ensures OnlyHeaders(old(mem[..]), mem[..], head, Addrs(st.free))
    {
      ghost var s2 := HeapState(SplitList(st.free, i, size), st.live);
      ghost var m0 := mem[..];
      FreeBlockAt(m0, head, st, i);
      SplitRing(head, st.free, i, size);
      SplitBlocks(st, i, size);
      var newBlk := blk + HEADER + size;
      WriteSizes(blk, newBlk, size, s2, i);
      LinkSplit(blk, newBlk, i, s2);
      st := s2;
    }

    method WriteSizes(blk: Word, newBlk: Word, size: Word, ghost s2: HeapState, ghost i: nat)
      requires Placed(mem.Length, head, s2) && i + 1 < |s2.free| && s2.live == st.live
      requires Linked(mem[..], RingOf(head, st.free)) && forall a :: a in RingOf(head, st.free) ==> a in RingOf(head, s2.free)
      requires s2.free[i] == Block(blk, size) && s2.free[i + 1].addr == newBlk
      requires blk + 8 < mem.Length && mem[blk + 8] == s2.free[i + 1].size + size + HEADER
      requires forall b :: Has(s2, b) ==> b == s2.free[i] || b == s2.free[i + 1] || Sized(mem[..], b)
      modifies mem
      ensures Linked(mem[..], RingOf(head, st.free))
      ensures AllSized(mem[..], s2)
      ensures OnlyHeaders(old(mem[..]), mem[..], head, Addrs(s2.free))
    {
      ghost var m0, t, r := mem[..], s2.free[i], s2.free[i + 1];
      assert t in s2.free && r in s2.free && Has(s2, t) && Has(s2, r);
      assert Below(t, r);
      mem[newBlk + 8] := mem[blk + 8] - size - HEADER;
      SizeWriteLinks(m0, mem[..], head, s2, r, RingOf(head, st.free));
      ghost var m1 := mem[..];
      mem[blk + 8] := size;
      SizeWriteLinks(m1, mem[..], head, s2, t, RingOf(head, st.free));
      SizeWrites(m0, mem[..], head, s2, t, r);
      assert blk in Addrs(s2.free) && newBlk in Addrs(s2.free);
    }

    method LinkSplit(blk: Word, newBlk: Word, ghost i: nat, ghost s2: HeapState)
      requires Linked(mem[..], RingOf(head, st.free)) && i < |st.free| && blk == st.free[i].addr
      requires Placed(mem.Length, head, s2) && RingOf(head, s2.free) == Inserted(RingOf(head, st.free), i + 1, newBlk)
      requires AllSized(mem[..], s2)
      modifies mem
      ensures Represents(mem[..], head, s2)
      ensures OnlyHeaders(old(mem[..]), mem[..], head, Addrs(s2.free))
    {
      ghost var m, ring, r2 := mem[..], RingOf(head, st.free), RingOf(head, s2.free);
      assert Edge(m, ring[i + 1], Succ(ring, i + 1));
      RingNodes(m, head, s2);
      InsertedApart(m, ring, i + 1, newBlk);
      InsertedNeighbours(ring, r2, i + 1, newBlk);
      ListInsert(mem, newBlk, blk, mem[blk], ring, i + 1);
      RelinkHolds(m, mem[..], head, s2, newBlk, blk, Succ(ring, i + 1));
    }

    // ---------- heap_free ----------

    /** The search for the first free block above `blk`. */
    method FindAbove(blk: Word) returns (freeBlk: Word)
      requires Valid()
      ensures var k := Position(st.free, blk); freeBlk == if k < |st.free| then st.free[k].addr else head
      ensures freeBlk == head <==> Position(st.free, blk) == |st.free|
    {
      ghost var i, k := 0, Position(st.free, blk);
      freeBlk := Advance(head, 0);
      while freeBlk != head
        invariant 0 <= i <= k && (freeBlk == head <==> i == |st.free|)
        invariant i < |st.free| ==> freeBlk == st.free[i].addr
        decreases |st.free| - i
      {
        if freeBlk > blk {
          break;
        }
        i := i + 1;
        freeBlk := Advance(freeBlk, i);
      }
    }

    /** The ordered insert of a block being freed. */
    method InsertOrdered(blk: Word, ghost b: Block)
      requires Valid() && b in st.live && blk == b.addr
      modifies this`st, mem
      ensures Valid() && st == HeapState(Insert(old(st.free), b), old(st.live) - {b})
      ensures OnlyHeaders(old(mem[..]), mem[..], head, Addrs(st.free))
    {
      ghost var m, s, ring := mem[..], HeapState(Insert(st.free, b), st.live - {b}), RingOf(head, st.free);
      ghost var k := Position(st.free, blk);
      var freeBlk := FindAbove(blk);
      NewNode(m, head, st, b);
      LinkBefore(blk, freeBlk, k);
      InsertPlaced(mem.Length, head, st, b);
      InsertedNeighbours(ring, RingOf(head, s.free), k, blk);
      SizedTransfer(m, st, s);
      RelinkHolds(m, mem[..], head, s, blk, ring[k], Succ(ring, k));
      st := s;
    }

    /** `list_insert` before `freeBlk`, or `list_add_tail` when the search ran off the list. */
    method LinkBefore(blk: Word, freeBlk: Word, ghost k: nat)
      requires Valid() && k <= |st.free| && freeBlk == Succ(RingOf(head, st.free), k)
      requires freeBlk == head <==> k == |st.free|
      requires IsNode(mem[..], blk) && forall i :: 0 <= i <= |st.free| ==> Separate(blk, RingOf(head, st.free)[i])
      modifies mem
      ensures var ring := RingOf(head, st.free);
              && Linked(mem[..], Inserted(ring, k, blk))
              && SameBut(old(mem[..]), mem[..], blk, blk + 4, ring[k], Succ(ring, k) + 4)
    {
      ghost var ring := RingOf(head, st.free);
      assert Edge(mem[..], ring[k], Succ(ring, k));
      if freeBlk != head {
        ListInsert(mem, blk, mem[freeBlk + 4], freeBlk, ring, k);
      } else {
        ListAddTail(mem, blk, head, ring);
        assert ring + [blk] == Inserted(ring, k, blk);
      }
    }

    /** The adjacency test between block `k - 1` and its successor. */
    method Adjoins(lb: Word, b: Word, ghost k: nat) returns (yes: bool)
      requires Valid() && 0 < k < |st.free| && lb == st.free[k - 1].addr && b == st.free[k].addr
      ensures yes == Touches(st.free[k - 1], st.free[k])
    {
      FreeBlockAt(mem[..], head, st, k - 1);
      yes := Mod32(lb + HEADER + mem[lb + 8]) == b;
    }

    /** One merge: block `k` absorbs its successor `b`. */
    method Absorb(lb: Word, b: Word, ghost k: nat)
      requires Valid() && k + 1 < |st.free| && lb == st.free[k].addr && b == st.free[k + 1].addr
      modifies this`st, mem
      ensures Valid() && st == HeapState(MergeAt(old(st.free), k, overhead), old(st.live))
      ensures |st.free| == |old(st.free)| - 1 && st.free[k].addr == lb
      ensures k + 1 < |st.free| ==> st.free[k + 1] == old(st.free[k + 2])
      ensures Shrunk(old(mem[..]), mem[..], head, old(st.free), st.free)
    {
      ghost var m, s, ring := mem[..], st, RingOf(head, st.free);
      ghost var x := s.free[k];
      FreeBlockAt(m, head, s, k);
      FreeBlockAt(m, head, s, k + 1);
      mem[lb + 8] := Mod32(mem[lb + 8] + overhead + mem[b + 8]);
      ghost var m1 := mem[..];
      SizeWriteLinks(m, m1, head, s, x, ring);
      ListDel(mem, b, ring, k + 2);
      AbsorbHolds(m, m1, mem[..], head, s, k, overhead);
      MergeAddrs(s.free, k, overhead);
      st := HeapState(MergeAt(s.free, k, overhead), s.live);
    }

    /** One turn of the coalescing loop at block `k`. */
    method PassBlock(lb: Word, b: Word, ghost k: nat) returns (absorbed: bool)
      requires Valid() && k < |st.free| && b == st.free[k].addr
      requires if k == 0 then lb == NULL else lb == st.free[k - 1].addr && lb != NULL
      modifies this`st, mem
      ensures Valid() && st.live == old(st.live)
      ensures !absorbed ==> st == old(st)
      ensures absorbed ==> k > 0 && |st.free| == |old(st.free)| - 1 && st.free[k - 1].addr == lb
      ensures absorbed && k < |st.free| ==> st.free[k] == old(st.free[k + 1])
      ensures PassedTo(st.free, if absorbed then k else k + 1, overhead) == PassedTo(old(st.free), k, overhead)
      ensures Shrunk(old(mem[..]), mem[..], head, old(st.free), st.free)
    {
      absorbed := false;
      if lb != NULL {
        absorbed := Adjoins(lb, b, k);
      }
      if absorbed {
        PassMerges(st.free, k, overhead);
        Absorb(lb, b, k - 1);
      } else {
        PassKeeps(st.free, k, overhead);
      }
    }

    /** The loop's pointers at block `k`: the block behind, the block and the one after. */
    ghost predicate Cursor(lb: Word, b: Word, t: Word, k: nat)
      reads this
    {
      && k <= |st.free| && (b == head <==> k == |st.free|)
      && (k < |st.free| ==> b == st.free[k].addr && (t == head <==> k + 1 == |st.free|))
      && (k + 1 < |st.free| ==> t == st.free[k + 1].addr)
      && (if k == 0 then lb == NULL else lb == st.free[k - 1].addr && lb != NULL)
    }

    /** The pass that began on `s0` in memory `m0` has reached block `k`. */
    ghost predicate Passing(m0: seq<Word>, s0: HeapState, k: nat)
      reads this, mem
    {
      && Valid() && st.live == s0.live && k <= |st.free|
      && Defrag(s0.free, overhead) == PassedTo(st.free, k, overhead)
      && Shrunk(m0, mem[..], head, s0.free, st.free)
    }

    /** The loop's body and its step to the next block. */
    method PassTurn(lb: Word, b: Word, t: Word, ghost k: nat, ghost m0: seq<Word>, ghost s0: HeapState)
      returns (lb': Word, b': Word, t': Word, ghost k': nat)
      requires Passing(m0, s0, k) && Cursor(lb, b, t, k) && b != head
      modifies this`st, mem
      ensures Passing(m0, s0, k') && Cursor(lb', b', t', k')
      ensures |st.free| - k' < |old(st.free)| - k
    {
      ghost var m1, f1 := mem[..], st.free;
      var absorbed := PassBlock(lb, b, k);
      ShrunkTrans(m0, m1, mem[..], head, s0.free, f1, st.free);
      lb', k' := lb, k;
      if !absorbed {
        lb', k' := b, k + 1;
      }
      b' := t;
      t' := Advance(b', if k' < |st.free| then k' + 1 else 0);
    }

    /** `heap_defrag_free_list`: the coalescing pass. */
    method HeapDefragFreeList()
      requires Valid()
      modifies this`st, mem
      ensures Valid() && st == HeapState(Defrag(old(st.free), overhead), old(st.live))
      ensures OnlyHeaders(old(mem[..]), mem[..], head, Addrs(old(st.free)))
    {
      ghost var m0, s0, k := mem[..], st, 0;
      var lb: Word := NULL;
      var b := Advance(head, 0);
      var t := Advance(b, if b == head then 0 else 1);
      while b != head
        invariant Passing(m0, s0, k) && Cursor(lb, b, t, k)
        decreases |st.free| - k
      {
        lb, b, t, k := PassTurn(lb, b, t, k, m0, s0);
      }
    }

    /** `heap_free` of NULL or of the payload of the live block `b`. */
    method HeapFree(ptr: Word, ghost b: Block)
      requires Valid() && (ptr != NULL ==> b in st.live && ptr == b.Payload())
      modifies this`st, mem
      ensures Valid() && st == if ptr == NULL then old(st) else Free(old(st), b, overhead)
      ensures ptr == NULL ==> mem[..] == old(mem[..])
      ensures OnlyHeaders(old(mem[..]), mem[..], head, Addrs(old(st.free)) + {b.addr})
      ensures old(Sound()) && (ptr == NULL || overhead == HEADER) ==> Sound()
      ensures old(Sound()) && ptr != NULL && overhead == NODE_SIZE ==>
                (Tiled(st, lo, hi) <==> !HasFreeNeighbour(old(st), b))
      ensures old(Sound()) ==> PayloadsKept(old(mem[..]), mem[..], st.live) && ArenaOnly(old(mem[..]), mem[..], head, lo, hi)
    {
      ghost var m, s := mem[..], st;
      if ptr != NULL {
        if Sound() {
          assert Tiled(s, lo, hi);
          FreeCompacts(s, b, lo, hi);
          LiteralFreeTiles(s, b, lo, hi);
        }
        assert Has(st, b);
        var blk := ptr - HEADER;
        InsertOrdered(blk, b);
        ghost var m1, hs := mem[..], Addrs(st.free);
        InsertedAddrs(s.free, b);
        HeapDefragFreeList();
        OnlyHeadersTrans(m, m1, mem[..], head, hs, hs, Addrs(s.free) + {b.addr});
        if old(Sound()) { FreeKeepsPayloads(m, mem[..], head, s, b, lo, hi); }
      }
    }

    /** Any history of calls, for either overhead: as long as every header split off has room,
        memory holds the state that `Run` computes. */
    method RunCalls(calls: seq<Call>)
      requires Valid() && Legal(st, calls, overhead) && AllHaveRoom(mem.Length, head, st, calls, overhead)
      modifies this`st, mem
      ensures Valid() && st == Run(old(st), calls, overhead)
    {
      hide Malloc, Free, HasRoom, Represents, Placed;
      var i := 0;
      while i < |calls|
        invariant 0 <= i <= |calls| && Valid()
        invariant Legal(st, calls[i..], overhead) && AllHaveRoom(mem.Length, head, st, calls[i..], overhead)
        invariant Run(st, calls[i..], overhead) == Run(old(st), calls, overhead)
      {
        assert calls[i..][1..] == calls[i + 1..] && calls[i..][0] == calls[i];
        match calls[i] {
          case MallocCall(n) =>
            var ptr := HeapMalloc(n);
          case FreeCall(b) =>
            LiveHasAddress(mem[..], head, st, b);
            HeapFree(b.Payload(), b);
        }
        i := i + 1;
      }
    }
  }

  lemma {:induction false} LiveHasAddress(m: seq<Word>, head: int, s: HeapState, b: Block)
    requires Represents(m, head, s) && b in s.live
    ensures 0 < b.Payload() < WRAP
  {
    assert Has(s, b) && HeaderFits(|m|, head, b);
  }

  /** The statements of the split, for one free block, when the list head stands where the size
      word of the new header is: the recorded size becomes the new block's own address, and the
      memory does not hold the heap that `Malloc` gives. */
  method SplitOverHeadWrites(mem: array<Word>, head: Word, blk: Word, size: Word, ghost f: Block)
    requires Represents(mem[..], head, HeapState([f], {})) && f.addr == blk
    requires size % 4 == 0 && size + 44 <= f.size && blk + HEADER + size + 8 == head
    modifies mem
    ensures mem[head] == blk + HEADER + size
    ensures Remainder(f, size)[0].addr + 8 == head
    ensures Remainder(f, size)[0].size != blk + HEADER + size ==> !Sized(mem[..], Remainder(f, size)[0])
  {
    ghost var ring := RingOf(head, [f]);
    FreeBlockAt(mem[..], head, HeapState([f], {}), 0);
    assert Edge(mem[..], ring[0], Succ(ring, 0)) && Edge(mem[..], ring[1], Succ(ring, 1));
    var newBlk := blk + HEADER + size;
    mem[newBlk + 8] := mem[blk + 8] - size - HEADER;
    mem[blk + 8] := size;
    var next := mem[blk];
    mem[next + 4] := newBlk;
    mem[newBlk] := next;
    mem[newBlk + 4] := blk;
    mem[blk] := newBlk;
    var prev := mem[blk + 4];
    next := mem[blk];
    mem[next + 4] := prev;
    mem[prev] := next;
    mem[blk] := NULL;
    mem[blk + 4] := NULL;
  }

  // ---------- Live payloads ----------

  /** The payload words of the blocks in `live` are the same in both memories. */
  ghost predicate PayloadsKept(m: seq<Word>, m': seq<Word>, live: set<Block>) {
    |m'| == |m| &&
    forall l, a {:trigger InPayload(l, a)} :: l in live && InPayload(l, a) && a < |m| ==> m'[a] == m[a]
  }

  /** Outside the arena only the list head may have changed. */
  ghost predicate ArenaOnly(m: seq<Word>, m': seq<Word>, head: int, lo: nat, hi: nat) {
    |m'| == |m| && forall a {:trigger Elsewhere(head, lo, hi, a)} :: 0 <= a < |m| && Elsewhere(head, lo, hi, a) ==> m'[a] == m[a]
  }

  ghost predicate Elsewhere(head: int, lo: nat, hi: nat, a: int) {
    !(head <= a < head + 8) && !(lo <= a < hi)
  }

  lemma {:induction false} HeadersInArena(m: seq<Word>, m': seq<Word>, head: int, hs: set<int>, lo: nat, hi: nat)
    requires OnlyHeaders(m, m', head, hs) && forall h :: h in hs ==> lo <= h && h + HEADER <= hi
    ensures ArenaOnly(m, m', head, lo, hi)
  {
    forall a | 0 <= a < |m| && Elsewhere(head, lo, hi, a) ensures m'[a] == m[a] {
      assert NoHeader(head, hs, a);
    }
  }

  ghost predicate InPayload(b: Block, a: int) {
    b.Payload() <= a < b.End()
  }

  ghost predicate Clear(h: int, l: Block) {
    h + HEADER <= l.addr || l.End() <= h
  }

  lemma {:induction false} KeepsPayloads(m: seq<Word>, m': seq<Word>, head: int, hs: set<int>, live: set<Block>, lo: nat, hi: nat)
    requires OnlyHeaders(m, m', head, hs) && (hi <= head || head + 8 <= lo)
    requires forall l :: l in live ==> lo <= l.addr && l.End() <= hi
    requires forall h, l {:trigger Clear(h, l)} :: h in hs && l in live ==> Clear(h, l)
    ensures PayloadsKept(m, m', live)
  {
    forall l, a | l in live && InPayload(l, a) && a < |m| ensures m'[a] == m[a] {
      assert forall h :: h in hs ==> Clear(h, l);
      assert NoHeader(head, hs, a);
    }
  }

  lemma {:induction false} FreeHeadersClear(s: HeapState, lo: nat, hi: nat)
    requires Tiled(s, lo, hi)
    ensures forall h, l {:trigger Clear(h, l)} :: h in Addrs(s.free) && l in s.live ==> Clear(h, l)
    ensures forall l, k {:trigger Clear(k.addr, l)} :: l in s.live && k in s.live && l != k ==> Clear(k.addr, l)
    ensures forall l :: l in s.live ==> lo <= l.addr && l.End() <= hi
    ensures forall h :: h in Addrs(s.free) ==> lo <= h && h + HEADER <= hi
  {
    TiledGeometry(s, lo, hi);
    assert forall f :: f in s.free ==> Has(s, f);
    forall h, l | h in Addrs(s.free) && l in s.live ensures Clear(h, l) {
      var f :| f in s.free && f.addr == h;
      assert Apart(f, l);
    }
    forall l, k | l in s.live && k in s.live && l != k ensures Clear(k.addr, l) {
      assert Has(s, l) && Has(s, k) && Apart(l, k);
    }
    assert forall l :: l in s.live ==> Has(s, l);
  }

  lemma {:induction false} FreeKeepsPayloads(m: seq<Word>, m': seq<Word>, head: int, s: HeapState, b: Block, lo: nat, hi: nat)
    requires Tiled(s, lo, hi) && b in s.live && (hi <= head || head + 8 <= lo)
    requires OnlyHeaders(m, m', head, Addrs(s.free) + {b.addr})
    ensures PayloadsKept(m, m', s.live - {b}) && ArenaOnly(m, m', head, lo, hi)
  {
    FreeHeadersClear(s, lo, hi);
    HeadersInArena(m, m', head, Addrs(s.free) + {b.addr}, lo, hi);
    forall h, l | h in Addrs(s.free) + {b.addr} && l in s.live - {b} ensures Clear(h, l) {
      if h == b.addr { assert Clear(b.addr, l); }
    }
    KeepsPayloads(m, m', head, Addrs(s.free) + {b.addr}, s.live - {b}, lo, hi);
  }

  lemma {:induction false} MallocKeepsPayloads(m: seq<Word>, m': seq<Word>, head: int, s: HeapState, n: Word, lo: nat, hi: nat)
    requires Tiled(s, lo, hi) && (hi <= head || head + 8 <= lo)
    requires OnlyHeaders(m, m', head, Addrs(s.free) + Addrs(Malloc(s, n).1.free))
    ensures PayloadsKept(m, m', s.live) && ArenaOnly(m, m', head, lo, hi)
  {
    var t := Malloc(s, n).1;
    MallocKeepsTiled(s, n, lo, hi);
    FreeHeadersClear(s, lo, hi);
    FreeHeadersClear(t, lo, hi);
    HeadersInArena(m, m', head, Addrs(s.free) + Addrs(t.free), lo, hi);
    forall h, l | h in Addrs(s.free) + Addrs(t.free) && l in s.live ensures Clear(h, l) {
      assert l in t.live;
    }
    KeepsPayloads(m, m', head, Addrs(s.free) + Addrs(t.free), s.live, lo, hi);
  }

  lemma {:induction false} InsertedAddrs(free: seq<Block>, b: Block)
    ensures Addrs(Insert(free, b)) <= Addrs(free) + {b.addr}
  {
    InsertMembers(free, b);
  }

  // ---------- One merge ----------

  /** The free list with blocks `k` and `k + 1` merged. */
  function MergeAt(free: seq<Block>, k: nat, overhead: nat): seq<Block>
    requires k + 1 < |free|
  {
    free[..k] + [Merged(free[k], free[k + 1], overhead)] + free[k + 2..]
  }

  lemma {:induction false} MergeElements(free: seq<Block>, k: nat, overhead: nat)
    requires k + 1 < |free| && HeadersAscend(free)
    ensures var w := MergeAt(free, k, overhead);
            && HeadersAscend(w)
            && (forall f :: f in w ==> f == Merged(free[k], free[k + 1], overhead) || (f in free && f != free[k] && f != free[k + 1]))
            && Merged(free[k], free[k + 1], overhead) in w
  {
    var w := MergeAt(free, k, overhead);
    assert forall j :: 0 <= j < |w| && j != k ==> w[j] == free[if j < k then j else j + 1];
    assert w[k] == Merged(free[k], free[k + 1], overhead);
    forall i, j | 0 <= i < j < |w| ensures Below(w[i], w[j]) {
      assert Below(free[if i <= k then i else i + 1], free[if j <= k then j else j + 1]);
    }
    forall f | f in w && f != w[k] ensures f in free && f != free[k] && f != free[k + 1] {
      var j :| 0 <= j < |w| && w[j] == f;
      if j < k {
        assert Below(free[j], free[k]) && Below(free[j], free[k + 1]);
      } else {
        assert Below(free[k], free[j + 1]) && Below(free[k + 1], free[j + 1]);
      }
    }
  }

  lemma {:induction false} MergeAddrs(free: seq<Block>, k: nat, overhead: nat)
    requires k + 1 < |free| && HeadersAscend(free)
    ensures Addrs(MergeAt(free, k, overhead)) <= Addrs(free)
  {
    MergeElements(free, k, overhead);
    assert free[k] in free;
  }

  lemma {:induction false} MergeRing(head: int, free: seq<Block>, k: nat, overhead: nat)
    requires k + 1 < |free|
    ensures RingOf(head, MergeAt(free, k, overhead)) == Deleted(RingOf(head, free), k + 2)
  {
    var w, ring := MergeAt(free, k, overhead), RingOf(head, free);
    var r, d := RingOf(head, w), Deleted(ring, k + 2);
    forall j | 0 <= j < |r| ensures r[j] == d[j] {
      assert d[j] == ring[if j < k + 2 then j else j + 1];
      if j > 0 {
        assert r[j] == w[j - 1].addr;
        assert w[j - 1] == if j - 1 < k then free[j - 1] else if j - 1 == k then Merged(free[k], free[k + 1], overhead) else free[j];
      }
    }
  }

  lemma {:induction false} MergePlaced(len: nat, head: int, s: HeapState, k: nat, overhead: nat)
    requires Placed(len, head, s) && k + 1 < |s.free|
    ensures Placed(len, head, HeapState(MergeAt(s.free, k, overhead), s.live))
  {
    MergeElements(s.free, k, overhead);
    assert s.free[k] in s.free;
    Resized(len, head, s, s.free[k], Merged(s.free[k], s.free[k + 1], overhead), MergeAt(s.free, k, overhead));
  }

  lemma {:induction false} Resized(len: nat, head: int, s: HeapState, x: Block, y: Block, w: seq<Block>)
    requires Placed(len, head, s) && x in s.free && y.addr == x.addr && HeadersAscend(w)
    requires forall f :: f in w ==> f == y || f in s.free
    ensures Placed(len, head, HeapState(w, s.live))
  {
    assert Has(s, x);
    assert forall l :: l in s.live ==> HeadersApart(x, l);
  }

  /** A size write followed by a list operation. */
  lemma {:induction false} MergeFrame(m: seq<Word>, m1: seq<Word>, m2: seq<Word>, head: int, s: HeapState, x: Block, n: int, p: int, q: int)
    requires Placed(|m|, head, s) && x in s.free
    requires SameButOne(m, m1, x.addr + 8) && SameBut(m1, m2, n, n + 4, p, q + 4)
    requires var r := RingOf(head, s.free); n in r && p in r && q in r
    ensures |m2| == |m| && x.addr + 8 < |m| && m2[x.addr + 8] == m1[x.addr + 8]
    ensures forall b :: Has(s, b) ==> b == x || m2[b.addr + 8] == m[b.addr + 8]
  {
    NodeWrites(m1, m2, head, s, n, p, q);
    assert Has(s, x);
    forall b | Has(s, b) && b != x ensures m2[b.addr + 8] == m[b.addr + 8] {
      DistinctApart(|m|, head, s, b, x);
    }
  }

  lemma {:induction false} MergeOnlyHeaders(m: seq<Word>, m1: seq<Word>, m2: seq<Word>, head: int, s: HeapState, x: Block, n: int, p: int, q: int)
    requires x in s.free && SameButOne(m, m1, x.addr + 8) && SameBut(m1, m2, n, n + 4, p, q + 4)
    requires var r := RingOf(head, s.free); n in r && p in r && q in r
    ensures OnlyHeaders(m, m2, head, Addrs(s.free))
  {
    NodesOnlyHeaders(m1, m2, head, s, n, p, q);
    assert x.addr in Addrs(s.free);
    OnlyHeadersTrans(m, m1, m2, head, Addrs(s.free), Addrs(s.free), Addrs(s.free));
  }

  lemma {:induction false} AbsorbHolds(m: seq<Word>, m1: seq<Word>, m2: seq<Word>, head: int, s: HeapState, k: nat, overhead: nat)
    requires Represents(m, head, s) && k + 1 < |s.free|
    requires SameButOne(m, m1, s.free[k].addr + 8) && Sized(m1, Merged(s.free[k], s.free[k + 1], overhead))
    requires var ring := RingOf(head, s.free);
             && Linked(m2, Deleted(ring, k + 2))
             && SameBut(m1, m2, ring[k + 2], ring[k + 2] + 4, ring[k + 1], Succ(ring, k + 2) + 4)
    ensures Represents(m2, head, HeapState(MergeAt(s.free, k, overhead), s.live))
    ensures OnlyHeaders(m, m2, head, Addrs(s.free))
  {
    var ring := RingOf(head, s.free);
    var n, p, q := ring[k + 2], ring[k + 1], Succ(ring, k + 2);
    assert n in ring && p in ring && q in ring;
    MergeFrame(m, m1, m2, head, s, s.free[k], n, p, q);
    MergeOnlyHeaders(m, m1, m2, head, s, s.free[k], n, p, q);
    MergeRing(head, s.free, k, overhead);
    MergeElements(s.free, k, overhead);
    MergePlaced(|m|, head, s, k, overhead);
    MergedSizes(m, m2, head, s, s.free[k], Merged(s.free[k], s.free[k + 1], overhead), MergeAt(s.free, k, overhead));
  }

  lemma {:induction false} MergedSizes(m: seq<Word>, m': seq<Word>, head: int, s: HeapState, x: Block, y: Block, w: seq<Block>)
    requires Placed(|m|, head, s) && |m'| == |m| && x in s.free && y.addr == x.addr && Sized(m', y)
    requires AllSized(m, s) && forall b :: Has(s, b) ==> b == x || m'[b.addr + 8] == m[b.addr + 8]
    requires forall f :: f in w ==> f == y || (f in s.free && f != x)
    ensures AllSized(m', HeapState(w, s.live))
  {
    assert Has(s, x);
    forall b | Has(s, b) && b != x ensures Sized(m', b) {
      assert Sized(m, b);
    }
    forall l | l in s.live ensures Has(s, l) && l != x {
      assert HeadersApart(x, l);
    }
  }

  /** What the whole pass yields once blocks before `k` are behind it. */
  function PassedTo(free: seq<Block>, k: nat, overhead: nat): seq<Block>
    requires k <= |free|
  {
    if k == 0 then Defrag(free, overhead)
    else free[..k - 1] + DefragFrom(free[k - 1], free[k..], overhead)
  }

  lemma {:induction false} PassMerges(free: seq<Block>, k: nat, overhead: nat)
    requires 0 < k < |free| && Touches(free[k - 1], free[k])
    ensures PassedTo(free, k, overhead) == PassedTo(MergeAt(free, k - 1, overhead), k, overhead)
  {
    var w := MergeAt(free, k - 1, overhead);
    assert w[..k - 1] == free[..k - 1] && w[k..] == free[k + 1..] && w[k - 1] == Merged(free[k - 1], free[k], overhead);
    assert free[k..][1..] == free[k + 1..] && free[k..][0] == free[k];
  }

  lemma {:induction false} PassKeeps(free: seq<Block>, k: nat, overhead: nat)
    requires k < |free| && (k > 0 ==> !Touches(free[k - 1], free[k]))
    ensures PassedTo(free, k, overhead) == PassedTo(free, k + 1, overhead)
  {
    assert free[k..][1..] == free[k + 1..] && free[k..][0] == free[k];
    if k > 0 {
      assert free[..k] == free[..k - 1] + [free[k - 1]];
    } else {
      assert free[..0] == [];
    }
  }

  lemma {:induction false} InsertedApart(m: seq<Word>, ring: seq<int>, i: nat, n: int)
    requires i < |ring| && Nodes(m, Inserted(ring, i, n))
    ensures IsNode(m, n) && forall k :: 0 <= k < |ring| ==> Separate(n, ring[k])
  {
    var r2 := Inserted(ring, i, n);
    assert r2[i + 1] == n;
    forall k | 0 <= k < |ring| ensures Separate(n, ring[k]) {
      assert ring[k] == r2[if k <= i then k else k + 1];
      NodesApart(m, r2, i + 1, if k <= i then k else k + 1);
    }
  }

  lemma {:induction false} InsertedNeighbours(ring: seq<int>, r2: seq<int>, k: nat, n: int)
    requires k < |ring| && r2 == Inserted(ring, k, n)
    ensures n in r2 && ring[k] in r2 && Succ(ring, k) in r2
  {
    assert r2[k + 1] == n && r2[k] == ring[k] && Succ(r2, k + 1) == Succ(ring, k);
  }

  lemma {:induction false} NewNode(m: seq<Word>, head: int, s: HeapState, b: Block)
    requires Placed(|m|, head, s) && b in s.live
    ensures IsNode(m, b.addr)
    ensures forall k :: 0 <= k <= |s.free| ==> Separate(b.addr, RingOf(head, s.free)[k])
  {
    var r := RingOf(head, s.free);
    assert Has(s, b);
    forall k | 0 <= k <= |s.free| ensures Separate(b.addr, r[k]) {
      if k > 0 { assert HeadersApart(s.free[k - 1], b); }
    }
  }

  lemma {:induction false} InsertPlaced(len: nat, head: int, s: HeapState, b: Block)
    requires Placed(len, head, s) && b in s.live
    ensures Placed(len, head, HeapState(Insert(s.free, b), s.live - {b}))
    ensures SameBlocks(s, HeapState(Insert(s.free, b), s.live - {b}))
    ensures RingOf(head, Insert(s.free, b)) == Inserted(RingOf(head, s.free), Position(s.free, b.addr), b.addr)
  {
    var p := Position(s.free, b.addr);
    assert forall i :: 0 <= i < |s.free| ==> s.free[i] in s.free && HeadersApart(s.free[i], b);
    InsertMembers(s.free, b);
    InsertAscends(s.free, b);
    TakeBack(len, head, s, b, Insert(s.free, b));
    InsertRing(head, s.free, b, p);
  }

  lemma {:induction false} InsertMembers(free: seq<Block>, b: Block)
    ensures forall f :: f in Insert(free, b) <==> f == b || f in free
  {
    var p := Position(free, b.addr);
    assert free == free[..p] + free[p..];
  }

  lemma {:induction false} InsertAscends(free: seq<Block>, b: Block)
    requires HeadersAscend(free) && forall i :: 0 <= i < |free| ==> HeadersApart(free[i], b)
    ensures HeadersAscend(Insert(free, b))
  {
    var w, p := Insert(free, b), Position(free, b.addr);
    forall i, j | 0 <= i < j < |w| ensures Below(w[i], w[j]) {
      InsertAt(free, b, i);
      InsertAt(free, b, j);
      if i == p {
        assert HeadersApart(free[p], b);
        assert j == p + 1 || Below(free[p], free[j - 1]);
      } else if j == p {
        assert HeadersApart(free[i], b);
      } else {
        assert Below(free[if i < p then i else i - 1], free[if j < p then j else j - 1]);
      }
    }
  }

  lemma {:induction false} InsertRing(head: int, free: seq<Block>, b: Block, p: nat)
    requires p == Position(free, b.addr)
    ensures RingOf(head, Insert(free, b)) == Inserted(RingOf(head, free), p, b.addr)
  {
    var w, ring := Insert(free, b), RingOf(head, free);
    var r, d := RingOf(head, w), Inserted(ring, p, b.addr);
    forall j | 0 <= j < |r| ensures r[j] == d[j] {
      assert d[j] == if j <= p then ring[j] else if j == p + 1 then b.addr else ring[j - 1];
      if j > 0 {
        InsertAt(free, b, j - 1);
        assert r[j] == w[j - 1].addr;
      }
    }
  }

  /** A live block taken back among the free ones, which become `w`. */
  lemma {:induction false} TakeBack(len: nat, head: int, s: HeapState, b: Block, w: seq<Block>)
    requires Placed(len, head, s) && b in s.live && HeadersAscend(w)
    requires forall f :: f in w <==> f == b || f in s.free
    ensures Placed(len, head, HeapState(w, s.live - {b}))
    ensures SameBlocks(s, HeapState(w, s.live - {b}))
  {
  }
}
