/** The circular doubly linked list of `src/lib/list.h`, its nodes embedded in memory.
    Memory is an array in which index `a` holds the aligned 32-bit word at byte address `a`;
    a node at address `n` keeps its `next` pointer at `n` and its `prev` pointer at `n + 4`. */
module IntrusiveList {
  import opened Words

  const NULL: Word := 0

  ghost predicate IsNode(m: seq<Word>, n: int) {
    0 < n && n % 4 == 0 && n + 8 <= |m| <= WRAP
  }

  ghost predicate Separate(m: int, n: int) {
    m + 8 <= n || n + 8 <= m
  }

  function Succ(ring: seq<int>, i: nat): int
    requires i < |ring|
  {
    if i + 1 < |ring| then ring[i + 1] else ring[0]
  }

  /** `p` and `q` point at each other. */
  ghost predicate Edge(m: seq<Word>, p: int, q: int) {
    0 <= p < |m| && 0 <= q + 4 < |m| && m[p] == q && m[q + 4] == p
  }

  ghost predicate Nodes(m: seq<Word>, ring: seq<int>) {
    && (forall i :: 0 <= i < |ring| ==> IsNode(m, ring[i]))
    && (forall i, j {:trigger Separate(ring[i], ring[j])} :: 0 <= i < j < |ring| ==> Separate(ring[i], ring[j]))
  }

  /** In memory `m` the nodes of `ring`, sentinel first, are linked into a cycle both ways. */
  ghost predicate Linked(m: seq<Word>, ring: seq<int>) {
    && ring != [] && Nodes(m, ring)
    && (forall i {:trigger Succ(ring, i)} :: 0 <= i < |ring| ==> Edge(m, ring[i], Succ(ring, i)))
  }

  /** Outside the words at `p`, `q`, `r` and `t`, memory is as it was. */
  ghost predicate SameBut(m: seq<Word>, m': seq<Word>, p: int, q: int, r: int, t: int) {
    |m| == |m'| && forall a :: 0 <= a < |m| && a != p && a != q && a != r && a != t ==> m'[a] == m[a]
  }

  ghost predicate SameButOne(m: seq<Word>, m': seq<Word>, p: int) {
    |m| == |m'| && forall a :: 0 <= a < |m| && a != p ==> m'[a] == m[a]
  }

  function Inserted(ring: seq<int>, i: nat, n: int): seq<int>
    requires i < |ring|
  {
    ring[..i + 1] + [n] + ring[i + 1..]
  }

  function Deleted(ring: seq<int>, i: nat): seq<int>
    requires i < |ring|
  {
    ring[..i] + ring[i + 1..]
  }

  // ---------- The shape of a ring ----------

  lemma {:induction false} NodesApart(m: seq<Word>, ring: seq<int>, i: nat, j: nat)
    requires Nodes(m, ring) && i < |ring| && j < |ring| && i != j
    ensures Separate(ring[i], ring[j])
  {
    assert if i < j then Separate(ring[i], ring[j]) else Separate(ring[j], ring[i]);
  }

  /** The words of two different edges are different. */
  lemma {:induction false} EdgeApart(m: seq<Word>, ring: seq<int>, i: nat, j: nat)
    requires Nodes(m, ring) && i < |ring| && j < |ring| && i != j
    ensures ring[j] != ring[i] && ring[j] != Succ(ring, i) + 4
    ensures Succ(ring, j) != Succ(ring, i) && Succ(ring, j) + 4 != ring[i]
  {
    var i', j' := if i + 1 < |ring| then i + 1 else 0, if j + 1 < |ring| then j + 1 else 0;
    NodesApart(m, ring, i, j);
    NodesApart(m, ring, i', j');
    if i != j' { NodesApart(m, ring, i, j'); }
    if j != i' { NodesApart(m, ring, j, i'); }
  }

  lemma {:induction false} NewNodeApart(m: seq<Word>, ring: seq<int>, n: int, j: nat)
    requires Nodes(m, ring) && IsNode(m, n) && j < |ring|
    requires forall k :: 0 <= k < |ring| ==> Separate(n, ring[k])
    ensures ring[j] != n && ring[j] != n + 4
    ensures Succ(ring, j) + 4 != n && Succ(ring, j) != n
  {
    assert Separate(n, ring[j]);
    assert Separate(n, ring[if j + 1 < |ring| then j + 1 else 0]);
  }

  lemma {:induction false} InsertedNodes(m: seq<Word>, ring: seq<int>, i: nat, n: int)
    requires Nodes(m, ring) && IsNode(m, n) && i < |ring|
    requires forall k :: 0 <= k < |ring| ==> Separate(n, ring[k])
    ensures Nodes(m, Inserted(ring, i, n))
  {
    var r := Inserted(ring, i, n);
    assert forall k :: 0 <= k < |r| ==> r[k] == if k <= i then ring[k] else if k == i + 1 then n else ring[k - 1];
    forall j, k | 0 <= j < k < |r| ensures Separate(r[j], r[k]) {
      if j != i + 1 && k != i + 1 {
        NodesApart(m, ring, if j <= i then j else j - 1, if k <= i then k else k - 1);
      }
    }
  }

  /** An edge of the longer ring is one of the two at the new node or an old one. */
  lemma {:induction false} InsertedEdge(ring: seq<int>, i: nat, n: int, k: nat) returns (j: nat)
    requires i < |ring| && k <= |ring|
    ensures var r := Inserted(ring, i, n);
            if k == i then r[k] == ring[i] && Succ(r, k) == n
            else if k == i + 1 then r[k] == n && Succ(r, k) == Succ(ring, i)
            else j < |ring| && j != i && r[k] == ring[j] && Succ(r, k) == Succ(ring, j)
  {
    j := if k <= i then k else k - 1;
  }

  lemma {:induction false} InsertLinks(m: seq<Word>, m': seq<Word>, ring: seq<int>, i: nat, n: int)
    requires Linked(m, ring) && i < |ring| && IsNode(m, n)
    requires forall k :: 0 <= k < |ring| ==> Separate(n, ring[k])
    requires SameBut(m, m', n, n + 4, ring[i], Succ(ring, i) + 4)
    requires Edge(m', ring[i], n) && Edge(m', n, Succ(ring, i))
    ensures Linked(m', Inserted(ring, i, n))
  {
    InsertedNodes(m', ring, i, n);
    forall k | 0 <= k <= |ring|
      ensures Edge(m', Inserted(ring, i, n)[k], Succ(Inserted(ring, i, n), k))
    {
      var j := InsertedEdge(ring, i, n, k);
      if k != i && k != i + 1 {
        InsertKeeps(m, m', ring, i, n, j);
      }
    }
  }

  lemma {:induction false} InsertKeeps(m: seq<Word>, m': seq<Word>, ring: seq<int>, i: nat, n: int, j: nat)
    requires Linked(m, ring) && i < |ring| && IsNode(m, n) && j < |ring| && j != i
    requires forall k :: 0 <= k < |ring| ==> Separate(n, ring[k])
    requires SameBut(m, m', n, n + 4, ring[i], Succ(ring, i) + 4)
    ensures Edge(m', ring[j], Succ(ring, j))
  {
    EdgeApart(m, ring, i, j);
    NewNodeApart(m, ring, n, j);
    assert Edge(m, ring[j], Succ(ring, j));
  }

  lemma {:induction false} DeletedNodes(m: seq<Word>, ring: seq<int>, i: nat)
    requires Nodes(m, ring) && 0 < i < |ring|
    ensures Nodes(m, Deleted(ring, i))
  {
    var r := Deleted(ring, i);
    assert forall k :: 0 <= k < |r| ==> r[k] == if k < i then ring[k] else ring[k + 1];
    forall j, k | 0 <= j < k < |r| ensures Separate(r[j], r[k]) {
      NodesApart(m, ring, if j < i then j else j + 1, if k < i then k else k + 1);
    }
  }

  lemma {:induction false} DeletedEdge(ring: seq<int>, i: nat, k: nat) returns (j: nat)
    requires 0 < i < |ring| && k < |ring| - 1
    ensures var r := Deleted(ring, i);
            if k == i - 1 then r[k] == ring[i - 1] && Succ(r, k) == Succ(ring, i)
            else j < |ring| && j != i && j != i - 1 && r[k] == ring[j] && Succ(r, k) == Succ(ring, j)
  {
    j := if k < i - 1 then k else k + 1;
  }

  lemma {:induction false} DeletedApart(m: seq<Word>, ring: seq<int>, i: nat)
    requires Nodes(m, ring) && 0 < i < |ring|
    ensures ring[i - 1] != ring[i] && ring[i - 1] != ring[i] + 4
    ensures Succ(ring, i) + 4 != ring[i] && Succ(ring, i) != ring[i] && Succ(ring, i) + 4 != ring[i - 1]
  {
    NodesApart(m, ring, i - 1, i);
    var i' := if i + 1 < |ring| then i + 1 else 0;
    NodesApart(m, ring, i', i);
    if i' != i - 1 { NodesApart(m, ring, i', i - 1); }
  }

  lemma {:induction false} DeleteLinks(m: seq<Word>, m': seq<Word>, ring: seq<int>, i: nat)
    requires Linked(m, ring) && 0 < i < |ring|
    requires SameBut(m, m', ring[i], ring[i] + 4, ring[i - 1], Succ(ring, i) + 4)
    requires Edge(m', ring[i - 1], Succ(ring, i))
    ensures Linked(m', Deleted(ring, i))
  {
    var r := Deleted(ring, i);
    DeletedNodes(m', ring, i);
    forall k | 0 <= k < |r| ensures Edge(m', r[k], Succ(r, k)) {
      var j := DeletedEdge(ring, i, k);
      if k != i - 1 {
        EdgeApart(m, ring, i, j);
        EdgeApart(m, ring, i - 1, j);
        assert Edge(m, ring[j], Succ(ring, j));
      }
    }
  }

  /** A ring stays linked when none of its words change. */
  lemma {:induction false} LinkedFrame(m: seq<Word>, m': seq<Word>, ring: seq<int>)
    requires Linked(m, ring) && |m'| == |m|
    requires forall i :: 0 <= i < |ring| ==> m'[ring[i]] == m[ring[i]] && m'[ring[i] + 4] == m[ring[i] + 4]
    ensures Linked(m', ring)
  {
    assert Nodes(m', ring);
    forall i | 0 <= i < |ring| ensures Edge(m', ring[i], Succ(ring, i)) {
      assert Edge(m, ring[i], Succ(ring, i));
      assert Succ(ring, i) == ring[if i + 1 < |ring| then i + 1 else 0];
    }
  }

  // ---------- The operations ----------

  method ListInit(mem: array<Word>, n: Word)
    requires IsNode(mem[..], n)
    modifies mem
    ensures Linked(mem[..], [n])
    ensures SameBut(old(mem[..]), mem[..], n, n + 4, n + 4, n + 4)
  {
    mem[n] := n;
    mem[n + 4] := n;
  }

  method ListInsert(mem: array<Word>, n: Word, prev: Word, next: Word, ghost ring: seq<int>, ghost i: nat)
    requires Linked(mem[..], ring) && i < |ring| && prev == ring[i] && next == Succ(ring, i)
    requires IsNode(mem[..], n) && forall k :: 0 <= k < |ring| ==> Separate(n, ring[k])
    modifies mem
    ensures Linked(mem[..], Inserted(ring, i, n))
    ensures SameBut(old(mem[..]), mem[..], n, n + 4, prev, next + 4)
  {
    ghost var m := mem[..];
    assert Edge(m, prev, next);
    NewNodeApart(m, ring, n, i);
    mem[next + 4] := n;
    mem[n] := next;
    mem[n + 4] := prev;
    mem[prev] := n;
    InsertLinks(m, mem[..], ring, i, n);
  }

  method ListAdd(mem: array<Word>, n: Word, head: Word, ghost ring: seq<int>)
    requires Linked(mem[..], ring) && head == ring[0]
    requires IsNode(mem[..], n) && forall k :: 0 <= k < |ring| ==> Separate(n, ring[k])
    modifies mem
    ensures Linked(mem[..], Inserted(ring, 0, n))
    ensures SameBut(old(mem[..]), mem[..], n, n + 4, head, Succ(ring, 0) + 4)
  {
    assert Edge(mem[..], ring[0], Succ(ring, 0));
    ListInsert(mem, n, head, mem[head], ring, 0);
  }

  method ListAddTail(mem: array<Word>, n: Word, head: Word, ghost ring: seq<int>)
    requires Linked(mem[..], ring) && head == ring[0]
    requires IsNode(mem[..], n) && forall k :: 0 <= k < |ring| ==> Separate(n, ring[k])
    modifies mem
    ensures Linked(mem[..], ring + [n])
    ensures SameBut(old(mem[..]), mem[..], n, n + 4, ring[|ring| - 1], head + 4)
  {
    ghost var last := |ring| - 1;
    assert Edge(mem[..], ring[last], Succ(ring, last));
    ListInsert(mem, n, mem[head + 4], head, ring, last);
    assert Inserted(ring, last, n) == ring + [n];
  }

  method ListDel(mem: array<Word>, n: Word, ghost ring: seq<int>, ghost i: nat)
    requires Linked(mem[..], ring) && 0 < i < |ring| && n == ring[i]
    modifies mem
    ensures Linked(mem[..], Deleted(ring, i))
    ensures mem[n] == NULL && mem[n + 4] == NULL
    ensures SameBut(old(mem[..]), mem[..], n, n + 4, ring[i - 1], Succ(ring, i) + 4)
  {
    ghost var m := mem[..];
    assert Edge(m, ring[i - 1], Succ(ring, i - 1)) && Edge(m, ring[i], Succ(ring, i));
    DeletedApart(m, ring, i);
    var prev, next := mem[n + 4], mem[n];
    mem[next + 4] := prev;
    mem[prev] := next;
    mem[n] := NULL;
    mem[n + 4] := NULL;
    DeleteLinks(m, mem[..], ring, i);
  }
}
