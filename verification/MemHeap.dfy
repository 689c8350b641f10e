/** The memheap allocator on its real representation: one array of words holding the item
    headers and the user data, a circular address list through all items and a circular free
    list through the free ones.  A header is six words: magic and used flag, pool, next,
    prev, next_free and prev_free.  The header of the free list itself is modelled as six
    extra words behind the pool.  Every method is proved to compute the corresponding
    function of MemHeapModel. */
module MemHeap {
  import opened Numbers
  import opened BlockChain
  import opened HeapWords
  import opened Sequences
  import Model = MemHeapModel
  import opened MemHeapModel

  const POOL: nat := 1
  const NEXT: nat := 2
  const PREV: nat := 3
  const NEXT_FREE: nat := 4
  const PREV_FREE: nat := 5

  const MAGIC: int := 0x1ea0_1ea0
  const POOL_ID: int := 1

  /** First header word: the magic number with the used flag in its lowest bit. */
  function Tag(used: bool): int {
    if used then MAGIC + 1 else MAGIC
  }

  // ------------------------------------------------------------------ the two lists in memory

  function NextAt(c: seq<Block>, i: nat): nat
    requires i < |c|
  {
    if i + 1 < |c| then c[i + 1].at else c[0].at
  }

  function PrevAt(c: seq<Block>, i: nat): nat
    requires i < |c|
  {
    if i > 0 then c[i - 1].at else c[|c| - 1].at
  }

  predicate ItemAt(mem: seq<int>, c: seq<Block>, i: nat)
    requires i < |c|
  {
    && c[i].at + PREV_FREE < |mem|
    && mem[c[i].at] == Tag(c[i].used)
    && mem[c[i].at + POOL] == POOL_ID
    && mem[c[i].at + NEXT] == NextAt(c, i)
    && mem[c[i].at + PREV] == PrevAt(c, i)
  }

  /** The address list runs through the chain and back to its start. */
  ghost predicate AddressList(mem: seq<int>, c: seq<Block>) {
    forall i: nat | i < |c| :: ItemAt(mem, c, i)
  }

  function RingNext(s: seq<nat>, k: nat): nat
    requires k < |s|
  {
    if k + 1 < |s| then s[k + 1] else s[0]
  }

  function RingPrev(s: seq<nat>, k: nat): nat
    requires k < |s|
  {
    if k > 0 then s[k - 1] else s[|s| - 1]
  }

  predicate RingAt(mem: seq<int>, s: seq<nat>, k: nat)
    requires k < |s|
  {
    && s[k] + PREV_FREE < |mem|
    && mem[s[k] + NEXT_FREE] == RingNext(s, k)
    && mem[s[k] + PREV_FREE] == RingPrev(s, k)
  }

  /** The free list, starting with its header s[0], is a doubly linked ring. */
  ghost predicate Ring(mem: seq<int>, s: seq<nat>) {
    forall k: nat | k < |s| :: RingAt(mem, s, k)
  }

  /** Items at x and y are different and share no word. */
  predicate Clear(x: nat, y: nat) {
    x + HEADER <= y || y + HEADER <= x
  }

  ghost predicate RingClear(s: seq<nat>) {
    forall j, k | 0 <= j < k < |s| :: Clear(s[j], s[k])
  }

  /** Where x stands to all items of the ring. */
  ghost predicate BesideRing(s: seq<nat>, x: nat) {
    forall k | 0 <= k < |s| :: s[k] == x || Clear(s[k], x)
  }

  ghost predicate BesideChain(c: seq<Block>, x: nat) {
    forall i | 0 <= i < |c| :: c[i].at == x || Clear(c[i].at, x)
  }

  // ------------------------------------------------------------------ writes and the list they leave alone

  lemma FreeWriteKeepsAddress(mem: seq<int>, c: seq<Block>, x: nat, field: nat, v: int)
    requires AddressList(mem, c) && BesideChain(c, x) && NEXT_FREE <= field <= PREV_FREE && x + field < |mem|
    ensures AddressList(mem[x + field := v], c)
  {
    var w := mem[x + field := v];
    forall i: nat | i < |c| ensures ItemAt(w, c, i) {
      assert ItemAt(mem, c, i);
    }
  }

  lemma AddressWriteKeepsRing(mem: seq<int>, s: seq<nat>, x: nat, field: nat, v: int)
    requires Ring(mem, s) && BesideRing(s, x) && field <= PREV && x + field < |mem|
    ensures Ring(mem[x + field := v], s)
  {
    var w := mem[x + field := v];
    forall k: nat | k < |s| ensures RingAt(w, s, k) {
      assert RingAt(mem, s, k);
    }
  }

  // ------------------------------------------------------------------ surgery on the free list

  function Removed(mem: seq<int>, s: seq<nat>, k: nat): seq<int>
    requires 0 < k < |s| && s[k - 1] + NEXT_FREE < |mem| && RingNext(s, k) + PREV_FREE < |mem|
  {
    mem[RingNext(s, k) + PREV_FREE := s[k - 1]][s[k - 1] + NEXT_FREE := RingNext(s, k)]
  }

  lemma RemovedAt(mem: seq<int>, s: seq<nat>, k: nat, m: nat)
    requires 0 < k < |s| && m < |s| - 1
    requires s[k - 1] + PREV_FREE < |mem| && RingNext(s, k) + PREV_FREE < |mem|
    requires var n := if m < k then m else m + 1;
             && RingAt(mem, s, n)
             && (n == k - 1 || Clear(s[n], s[k - 1]))
             && ((if k + 1 < |s| then n == k + 1 else n == 0) || Clear(s[n], RingNext(s, k)))
    ensures RingAt(Removed(mem, s, k), s[..k] + s[k + 1..], m)
  {
    var n := if m < k then m else m + 1;
    var r := s[..k] + s[k + 1..];
    assert r[m] == s[n];
    assert RingNext(r, m) == if n == k - 1 then RingNext(s, k) else RingNext(s, n);
    assert RingPrev(r, m) == if n == (if k + 1 < |s| then k + 1 else 0) then s[k - 1] else RingPrev(s, n);
  }

  lemma RemovedRing(mem: seq<int>, s: seq<nat>, k: nat)
    requires Ring(mem, s) && RingClear(s) && 0 < k < |s|
    ensures s[k - 1] + PREV_FREE < |mem| && RingNext(s, k) + PREV_FREE < |mem|
    ensures Ring(Removed(mem, s, k), s[..k] + s[k + 1..])
  {
    var nx := if k + 1 < |s| then k + 1 else 0;
    assert RingAt(mem, s, k - 1) && RingAt(mem, s, nx);
    var w, r := Removed(mem, s, k), s[..k] + s[k + 1..];
    forall m: nat | m < |r| ensures RingAt(w, r, m) {
      var n := if m < k then m else m + 1;
      assert RingAt(mem, s, n);
      RemovedAt(mem, s, k, m);
    }
  }

  function Pushed(mem: seq<int>, s: seq<nat>, x: nat): (w: seq<int>)
    requires s != [] && x + PREV_FREE < |mem| && s[0] + NEXT_FREE < |mem| && RingNext(s, 0) + PREV_FREE < |mem|
    ensures |w| == |mem|
  {
    mem[x + NEXT_FREE := RingNext(s, 0)][x + PREV_FREE := s[0]][RingNext(s, 0) + PREV_FREE := x][s[0] + NEXT_FREE := x]
  }

  lemma PushedAt(mem: seq<int>, s: seq<nat>, x: nat, m: nat)
    requires s != [] && m <= |s| && m != 1
    requires x + PREV_FREE < |mem| && s[0] + PREV_FREE < |mem| && RingNext(s, 0) + PREV_FREE < |mem|
    requires var n := if m == 0 then 0 else m - 1;
             && RingAt(mem, s, n) && Clear(s[n], x)
             && (n == 0 || Clear(s[n], s[0]))
             && ((if |s| > 1 then n == 1 else n == 0) || Clear(s[n], RingNext(s, 0)))
    ensures RingAt(Pushed(mem, s, x), [s[0], x] + s[1..], m)
  {
    var n := if m == 0 then 0 else m - 1;
    var r := [s[0], x] + s[1..];
    assert r[m] == s[n];
    assert RingNext(r, m) == if n == 0 then x else RingNext(s, n);
    assert RingPrev(r, m) == if n == (if |s| > 1 then 1 else 0) then x else RingPrev(s, n);
  }

  lemma PushedRing(mem: seq<int>, s: seq<nat>, x: nat)
    requires Ring(mem, s) && RingClear(s) && s != [] && x + PREV_FREE < |mem|
    requires forall k | 0 <= k < |s| :: Clear(s[k], x)
    ensures s[0] + PREV_FREE < |mem| && RingNext(s, 0) + PREV_FREE < |mem|
    ensures Ring(Pushed(mem, s, x), [s[0], x] + s[1..])
  {
    var nx := if |s| > 1 then 1 else 0;
    assert RingAt(mem, s, 0) && RingAt(mem, s, nx);
    var w, r := Pushed(mem, s, x), [s[0], x] + s[1..];
    forall m: nat | m < |r| ensures RingAt(w, r, m) {
      if m == 1 {
        PushedNew(mem, s, x);
      } else {
        var n := if m == 0 then 0 else m - 1;
        assert RingAt(mem, s, n);
        PushedAt(mem, s, x, m);
      }
    }
  }

  lemma PushedNew(mem: seq<int>, s: seq<nat>, x: nat)
    requires s != [] && x + PREV_FREE < |mem| && s[0] + PREV_FREE < |mem| && RingNext(s, 0) + PREV_FREE < |mem|
    requires Clear(s[0], x) && Clear(RingNext(s, 0), x)
    ensures RingAt(Pushed(mem, s, x), [s[0], x] + s[1..], 1)
  {
    var r := [s[0], x] + s[1..];
    assert r[1] == x && RingNext(r, 1) == RingNext(s, 0) && RingPrev(r, 1) == s[0];
  }

  // ------------------------------------------------------------------ surgery on the address list

  function Unlinked(mem: seq<int>, c: seq<Block>, k: nat): seq<int>
    requires 0 < k < |c| - 1 && c[k - 1].at + NEXT < |mem| && c[k + 1].at + PREV < |mem|
  {
    mem[c[k - 1].at + NEXT := c[k + 1].at][c[k + 1].at + PREV := c[k - 1].at]
  }

  lemma UnlinkedAt(mem: seq<int>, c: seq<Block>, k: nat, m: nat)
    requires 0 < k < |c| - 1 && m < |c| - 1
    requires c[k - 1].at + PREV < |mem| && c[k + 1].at + PREV < |mem| && Clear(c[k - 1].at, c[k + 1].at)
    requires var n := if m < k then m else m + 1;
             && ItemAt(mem, c, n)
             && (n == k - 1 || Clear(c[n].at, c[k - 1].at))
             && (n == k + 1 || Clear(c[n].at, c[k + 1].at))
    ensures ItemAt(Unlinked(mem, c, k), Absorb(c, k), m)
  {
    var n := if m < k then m else m + 1;
    var r := Absorb(c, k);
    assert r[m] == c[n];
    assert NextAt(r, m) == if n == k - 1 then c[k + 1].at else NextAt(c, n);
    assert PrevAt(r, m) == if n == k + 1 then c[k - 1].at else PrevAt(c, n);
  }

  lemma Apart(c: seq<Block>, end: nat, i: nat, j: nat)
    requires Tiled(c, HEADER, end) && i < |c| && j < |c|
    ensures i == j || Clear(c[i].at, c[j].at)
  {
  }

  lemma UnlinkedList(mem: seq<int>, c: seq<Block>, end: nat, k: nat)
    requires Tiled(c, HEADER, end) && AddressList(mem, c) && 0 < k < |c| - 1
    ensures c[k - 1].at + PREV_FREE < |mem| && c[k + 1].at + PREV_FREE < |mem|
    ensures AddressList(Unlinked(mem, c, k), Absorb(c, k))
  {
    assert ItemAt(mem, c, k - 1) && ItemAt(mem, c, k + 1);
    var w, r := Unlinked(mem, c, k), Absorb(c, k);
    Apart(c, end, k - 1, k + 1);
    forall m: nat | m < |r| ensures ItemAt(w, r, m) {
      var n := if m < k then m else m + 1;
      assert ItemAt(mem, c, n);
      Apart(c, end, n, k - 1);
      Apart(c, end, n, k + 1);
      UnlinkedAt(mem, c, k, m);
    }
  }

  lemma TaggedList(mem: seq<int>, c: seq<Block>, end: nat, k: nat, used: bool)
    requires Tiled(c, HEADER, end) && AddressList(mem, c) && k < |c|
    ensures c[k].at + PREV_FREE < |mem| && AddressList(mem[c[k].at := Tag(used)], Mark(c, k, used))
  {
    assert ItemAt(mem, c, k);
    var w, r := mem[c[k].at := Tag(used)], Mark(c, k, used);
    forall m: nat | m < |r| ensures ItemAt(w, r, m) {
      assert ItemAt(mem, c, m);
      Apart(c, end, m, k);
    }
  }

  /** A free item built at x and linked in behind item k. */
  function Inserted(mem: seq<int>, c: seq<Block>, k: nat, x: nat): (w: seq<int>)
    requires k < |c| - 1 && c[k].at + NEXT < |mem| && x + PREV < |mem| && c[k + 1].at + PREV < |mem|
    ensures |w| == |mem|
  {
    mem[x := Tag(false)][x + POOL := POOL_ID][x + PREV := c[k].at][x + NEXT := c[k + 1].at]
       [c[k + 1].at + PREV := x][c[k].at + NEXT := x]
  }

  lemma InsertedAt(mem: seq<int>, c: seq<Block>, k: nat, x: nat, m: nat)
    requires k < |c| - 1 && m <= |c| && m != k + 1
    requires c[k].at + HEADER <= x && x + HEADER <= c[k + 1].at && c[k + 1].at + PREV_FREE < |mem|
    requires var n := if m <= k then m else m - 1;
             && ItemAt(mem, c, n) && Clear(c[n].at, x)
             && (n == k || Clear(c[n].at, c[k].at))
             && (n == k + 1 || Clear(c[n].at, c[k + 1].at))
    ensures ItemAt(Inserted(mem, c, k, x), Split(c, k, Block(x, false)), m)
  {
    var n := if m <= k then m else m - 1;
    var r := Split(c, k, Block(x, false));
    assert r[m] == c[n];
    assert NextAt(r, m) == if n == k then x else NextAt(c, n);
    assert PrevAt(r, m) == if n == k + 1 then x else PrevAt(c, n);
  }

  lemma InsertedNew(mem: seq<int>, c: seq<Block>, k: nat, x: nat)
    requires k < |c| - 1
    requires c[k].at + HEADER <= x && x + HEADER <= c[k + 1].at && c[k + 1].at + PREV_FREE < |mem|
    ensures ItemAt(Inserted(mem, c, k, x), Split(c, k, Block(x, false)), k + 1)
  {
    var r := Split(c, k, Block(x, false));
    assert r[k + 1].at == x && NextAt(r, k + 1) == c[k + 1].at && PrevAt(r, k + 1) == c[k].at;
  }

  lemma InsertedList(mem: seq<int>, c: seq<Block>, end: nat, k: nat, x: nat)
    requires Tiled(c, HEADER, end) && AddressList(mem, c) && k < |c| - 1
    requires c[k].at + HEADER <= x && x + HEADER <= c[k + 1].at
    ensures c[k].at + PREV_FREE < |mem| && c[k + 1].at + PREV_FREE < |mem|
    ensures AddressList(Inserted(mem, c, k, x), Split(c, k, Block(x, false)))
  {
    assert ItemAt(mem, c, k) && ItemAt(mem, c, k + 1);
    var w, r := Inserted(mem, c, k, x), Split(c, k, Block(x, false));
    forall m: nat | m < |r| ensures ItemAt(w, r, m) {
      if m == k + 1 {
        InsertedNew(mem, c, k, x);
      } else {
        var n := if m <= k then m else m - 1;
        assert ItemAt(mem, c, n);
        Apart(c, end, n, k);
        Apart(c, end, n, k + 1);
        InsertedAt(mem, c, k, x, m);
      }
    }
  }

  // ------------------------------------------------------------------ how the two lists lie

  /** Every listed item is the header of a free block, and listed once. */
  ghost predicate Listed(c: seq<Block>, free: seq<nat>) {
    && Distinct(free)
    && forall at | at in free :: IsFree(c, at)
  }

  /** The ring: the list header behind the pool, then the listed items. */
  function RingOf(end: nat, free: seq<nat>): seq<nat> {
    [end + HEADER] + free
  }

  lemma RingItem(c: seq<Block>, end: nat, free: seq<nat>, k: nat) returns (i: nat)
    requires Tiled(c, HEADER, end) && Listed(c, free) && k < |free| + 1
    ensures k == 0 ==> RingOf(end, free)[k] == end + HEADER && i == |c| - 1
    ensures k > 0 ==> i < |c| - 1 && !c[i].used && RingOf(end, free)[k] == c[i].at
  {
    if k == 0 {
      i := |c| - 1;
    } else {
      assert free[k - 1] in free;
      i := IndexOf(c, free[k - 1]);
    }
  }

  lemma RingIsClear(c: seq<Block>, end: nat, free: seq<nat>)
    requires Tiled(c, HEADER, end) && Listed(c, free)
    ensures RingClear(RingOf(end, free))
  {
    var s := RingOf(end, free);
    forall j, k | 0 <= j < k < |s| ensures Clear(s[j], s[k]) {
      var a := RingItem(c, end, free, j);
      var b := RingItem(c, end, free, k);
      if j == 0 {
        Apart(c, end, b, |c| - 1);
      } else {
        assert free[j - 1] != free[k - 1];
        Apart(c, end, a, b);
      }
    }
  }

  lemma ItemBesideChain(c: seq<Block>, end: nat, free: seq<nat>, k: nat)
    requires Tiled(c, HEADER, end) && Listed(c, free) && k < |free| + 1
    ensures BesideChain(c, RingOf(end, free)[k])
  {
    var a := RingItem(c, end, free, k);
    forall i | 0 <= i < |c| ensures c[i].at == RingOf(end, free)[k] || Clear(c[i].at, RingOf(end, free)[k]) {
      Apart(c, end, i, a);
      Apart(c, end, i, |c| - 1);
    }
  }

  lemma HeaderBesideRing(c: seq<Block>, end: nat, free: seq<nat>, i: nat)
    requires Tiled(c, HEADER, end) && Listed(c, free) && i < |c|
    ensures BesideRing(RingOf(end, free), c[i].at)
  {
    var s := RingOf(end, free);
    forall k | 0 <= k < |s| ensures s[k] == c[i].at || Clear(s[k], c[i].at) {
      ItemBesideChain(c, end, free, k);
    }
  }

  /** No listed item reaches into a used block. */
  lemma ItemOutside(c: seq<Block>, end: nat, free: seq<nat>, k: nat, x: (nat, int))
    requires Tiled(c, HEADER, end) && Listed(c, free) && k < |free| + 1 && x in Live(c, HEADER)
    ensures RingOf(end, free)[k] + HEADER <= x.0 || x.0 + x.1 <= RingOf(end, free)[k]
  {
    var a := RingItem(c, end, free, k);
    LiveInside(c, HEADER, end, x);
  }

  // ------------------------------------------------------------------ the pool object

  class Pool {
    const poolSize: nat
    const heap: array<int>
    var available: int
    var maxUsed: int
    ghost var chain: seq<Block>
    ghost var free: seq<nat>

    ghost function Abs(): Model.MemHeap
      reads this
    {
      Model.MemHeap(poolSize, chain, free, available, maxUsed)
    }

    ghost predicate Linked()
      reads this, heap
    {
      && poolSize > 2 * HEADER && heap.Length == poolSize + HEADER
      && Tiled(chain, HEADER, poolSize - HEADER)
      && Listed(chain, free)
      && AddressList(heap[..], chain)
      && Ring(heap[..], RingOf(poolSize - HEADER, free))
    }

    ghost predicate Valid()
      reads this, heap
    {
      Linked() && Inv(Abs())
    }

    /** rt_memheap_init on `size` bytes; the pool is the whole words of them. */
    constructor (size: nat)
      requires 2 * HEADER < size / 4 && size < 4 * ADDRESS_WORDS
      ensures Valid() && Abs() == Init(size / 4) && fresh(heap)
      ensures poolSize == size / 4 && available == poolSize - 12 && maxUsed == 12
    {
      hide AddressList, Ring, Listed, Tiled, Coalesced, FreeList, Total, IndexOf;
      var words := size / 4;
      poolSize := words;
      heap := new int[words + HEADER];
      available, maxUsed := words - 2 * HEADER, 2 * HEADER;
      chain, free := Init(words).chain, [0];
      new;
      var tail := words - HEADER;
      heap[0], heap[POOL], heap[NEXT], heap[PREV] := Tag(false), POOL_ID, tail, tail;
      heap[NEXT_FREE], heap[PREV_FREE] := words, words;
      heap[words + NEXT_FREE], heap[words + PREV_FREE] := 0, 0;
      heap[tail], heap[tail + POOL], heap[tail + NEXT], heap[tail + PREV] := Tag(true), POOL_ID, 0, 0;
      InitInv(words);
      InitLists(heap[..], words);
    }

    /** Take ring item k off the free list. */
    method RemoveFree(at: nat, ghost k: nat)
      requires Linked() && 0 < k < |free| + 1 && free[k - 1] == at
      modifies heap, this`free
      ensures Linked() && free == old(free)[..k - 1] + old(free)[k..]
      ensures KeepsData(old(heap[..]), heap[..], Live(chain, HEADER))
    {
      ghost var was, s := heap[..], RingOf(poolSize - HEADER, free);
      RemovedPool(was, chain, poolSize - HEADER, free, k);
      var next, prev := heap[at + NEXT_FREE], heap[at + PREV_FREE];
      heap[next + PREV_FREE] := prev;
      heap[prev + NEXT_FREE] := next;
      assert heap[..] == Removed(was, s, k);
      free := free[..k - 1] + free[k..];
    }

    /** Put free block x at the front of the free list. */
    method PushFree(x: nat)
      requires Linked() && IsFree(chain, x) && x !in free
      modifies heap, this`free
      ensures Linked() && free == [x] + old(free)
      ensures KeepsData(old(heap[..]), heap[..], Live(chain, HEADER))
    {
      ghost var was, s := heap[..], RingOf(poolSize - HEADER, free);
      PushReady(was, chain, poolSize - HEADER, free, x);
      PushedRingPart(was, chain, poolSize - HEADER, free, x);
      PushedAddressPart(was, chain, poolSize - HEADER, free, x);
      PushedDataPart(was, chain, poolSize - HEADER, free, x);
      var head := poolSize;
      heap[x + NEXT_FREE] := heap[head + NEXT_FREE];
      heap[x + PREV_FREE] := head;
      heap[heap[head + NEXT_FREE] + PREV_FREE] := x;
      heap[head + NEXT_FREE] := x;
      assert heap[..] == Pushed(was, s, x);
      free := [x] + free;
    }

    /** Flip the used flag of block k. */
    method SetUsed(at: nat, used: bool, ghost k: nat)
      requires Linked() && k < |chain| - 1 && chain[k].at == at && at !in free
      modifies heap, this`chain
      ensures Linked() && chain == Mark(old(chain), k, used)
      ensures KeepsData(old(heap[..]), heap[..], old(Live(chain, HEADER)))
    {
      ghost var was := heap[..];
      TaggedPool(was, chain, poolSize - HEADER, free, k, used);
      heap[at] := Tag(used);
      assert heap[..] == was[at := Tag(used)];
      chain := Mark(chain, k, used);
    }

    /** Take unlisted free block k out of the address list. */
    method UnlinkItem(at: nat, ghost k: nat)
      requires Linked() && 0 < k < |chain| - 1 && chain[k] == Block(at, false) && at !in free
      modifies heap, this`chain
      ensures Linked() && chain == Absorb(old(chain), k)
      ensures KeepsData(old(heap[..]), heap[..], old(Live(chain, HEADER)))
    {
      ghost var was := heap[..];
      UnlinkedPool(was, chain, poolSize - HEADER, free, k);
      var next, prev := heap[at + NEXT], heap[at + PREV];
      heap[prev + NEXT] := next;
      heap[next + PREV] := prev;
      assert heap[..] == Unlinked(was, chain, k);
      chain := Absorb(chain, k);
    }

    /** Build a free item at x inside block k. */
    method InsertItem(at: nat, x: nat, ghost k: nat)
      requires Linked() && k < |chain| - 1 && chain[k].at == at
      requires at + HEADER < x && x + HEADER < chain[k + 1].at
      modifies heap, this`chain
      ensures Linked() && chain == Split(old(chain), k, Block(x, false))
      ensures k + 1 < |chain| - 1 && chain[k] == old(chain[k]) && chain[k + 1] == Block(x, false)
      ensures KeepsData(old(heap[..]), heap[..], Live(chain, HEADER))
      ensures x !in free && IsFree(chain, x)
    {
      ghost var was := heap[..];
      InsertedPool(was, chain, poolSize - HEADER, free, k, x);
      heap[x] := Tag(false);
      heap[x + POOL] := POOL_ID;
      heap[x + PREV] := at;
      heap[x + NEXT] := heap[at + NEXT];
      heap[heap[at + NEXT] + PREV] := x;
      heap[at + NEXT] := x;
      assert heap[..] == Inserted(was, chain, k, x);
      chain := Split(chain, k, Block(x, false));
    }

    // -------------------------------------------------------------- reading the lists

    method NextItem(at: nat, ghost k: nat) returns (next: nat)
      requires Linked() && k < |chain| && chain[k].at == at
      ensures next == NextAt(chain, k)
    {
      assert ItemAt(heap[..], chain, k);
      next := heap[at + NEXT];
    }

    method PrevItem(at: nat, ghost k: nat) returns (prev: nat)
      requires Linked() && k < |chain| && chain[k].at == at
      ensures prev == PrevAt(chain, k)
    {
      assert ItemAt(heap[..], chain, k);
      prev := heap[at + PREV];
    }

    /** RT_MEMHEAP_IS_USED of block k. */
    function IsUsed(at: nat, ghost k: nat): (used: bool)
      requires Linked() && k < |chain| && chain[k].at == at
      reads this, heap
      ensures used == chain[k].used
    {
      assert ItemAt(heap[..], chain, k);
      heap[at] == Tag(true)
    }

    /** MEMITEM_SIZE of block k. */
    method ItemSize(at: nat, ghost k: nat) returns (size: int)
      requires Linked() && k < |chain| - 1 && chain[k].at == at
      ensures size == Room(chain, HEADER, k)
    {
      assert ItemAt(heap[..], chain, k);
      size := heap[at + NEXT] - at - HEADER;
    }

    method NextFree(at: nat, ghost k: nat) returns (next: nat)
      requires Linked() && k < |free| + 1 && at == RingOf(poolSize - HEADER, free)[k]
      ensures next == if k < |free| then free[k] else poolSize
    {
      assert RingAt(heap[..], RingOf(poolSize - HEADER, free), k);
      next := heap[at + NEXT_FREE];
    }

    /** The search loop of rt_memheap_alloc over the free list. */
    method Search(size: nat) returns (header: nat, freeSize: int, ghost k: nat)
      requires Linked() && size > 0
      ensures k == FirstFit(chain, free, size)
      ensures k < |free| ==> header == free[k] && freeSize == RoomAt(chain, header) && IsFree(chain, header)
      ensures k == |free| ==> freeSize < size
    {
      freeSize, k := 0, 0;
      header := NextFree(poolSize, 0);
      while header != poolSize && freeSize < size
        invariant k <= |free| && header == if k < |free| then free[k] else poolSize
        invariant forall j | 0 <= j < k :: RoomAt(chain, free[j]) < size
        invariant freeSize >= size ==> k < |free| && freeSize == RoomAt(chain, free[k]) && IsFree(chain, free[k])
        decreases |free| - k, if freeSize < size then 1 else 0
      {
        ListedItem(chain, poolSize - HEADER, free, k);
        freeSize := ItemSize(header, IndexOf(chain, header));
        if freeSize < size {
          header := NextFree(header, k + 1);
          k := k + 1;
        }
      }
      if k < |free| {
        ListedItem(chain, poolSize - HEADER, free, k);
      }
    }

    // -------------------------------------------------------------- the operations

    /** Take n words out of available_size and raise the high-water mark. */
    method Charge(n: int)
      modifies this`available, this`maxUsed
      ensures Abs() == Model.Charge(old(Abs()), n)
    {
      available := available - n;
      if poolSize - available > maxUsed {
        maxUsed := poolSize - available;
      }
    }

    /** Take block `at` off the free list. */
    method Delist(at: nat)
      requires Linked() && at in free
      modifies heap, this`free
      ensures Linked() && free == Without(old(free), at) && at !in free
      ensures KeepsData(old(heap[..]), heap[..], Live(chain, HEADER))
    {
      WithoutMembers(free, at);
      RemoveFree(at, Find(free, at) + 1);
    }

    /** Hand out free block i. */
    method Take(header: nat, size: nat, ghost i: nat)
      requires Linked() && i < |chain| - 1 && chain[i] == Block(header, false) && header in free && size >= MINIALLOC
      modifies this, heap
      ensures Linked() && Abs() == Model.Take(old(Abs()), i, size)
      ensures KeepsData(old(heap[..]), heap[..], old(Live(chain, HEADER)))
    {
      hide Live, IndexOf, Listed, AddressList, Ring, Tiled, Without, Total;
      var freeSize := ItemSize(header, i);
      if freeSize >= size + HEADER + MINIALLOC {
        SplitFreeLive(chain, HEADER, poolSize - HEADER, i, Block(header + size + HEADER, false));
        InsertItem(header, header + size + HEADER, i);
        TakeFront(header, header + size + HEADER, i);
        Charge(size + HEADER);
      } else {
        Charge(freeSize);
        Delist(header);
        SetUsed(header, true, i);
      }
    }

    /** The list work behind a split: header off, x on, header used. */
    method TakeFront(header: nat, x: nat, ghost i: nat)
      requires Linked() && i < |chain| - 1 && chain[i] == Block(header, false) && header in free
      requires x !in free && IsFree(chain, x) && x != header
      modifies heap, this`free, this`chain
      ensures Linked() && chain == Mark(old(chain), i, true) && free == [x] + Without(old(free), header)
      ensures KeepsData(old(heap[..]), heap[..], old(Live(chain, HEADER)))
    {
      WithoutMembers(free, header);
      Delist(header);
      PushFree(x);
      SetUsed(header, true, i);
    }

    /** rt_memheap_alloc. */
    method Alloc(bytes: nat) returns (p: int)
      requires Valid()
      modifies this, heap
      ensures Valid() && Outcome(Abs(), p) == Model.Alloc(old(Abs()), bytes)
      ensures p == RT_NULL ==> heap[..] == old(heap[..])
      ensures KeepsData(old(heap[..]), heap[..], old(Live(chain, HEADER)))
    {
      hide Live, Total, Tiled, AddressList, Ring, Coalesced, FreeList, Listed;
      ghost var h := Abs();
      AllocInv(h, bytes);
      var size := AlignWords(bytes);
      if size < MINIALLOC {
        size := MINIALLOC;
      }
      if size < available {
        var header, freeSize, k := Search(size);
        if freeSize >= size {
          assert header in free;
          Take(header, size, IndexOf(chain, header));
          return header + HEADER;
        }
      }
      return RT_NULL;
    }

    method MergeLeft(at: nat, prev: nat, ghost k: nat)
      requires Linked() && 0 < k < |chain| - 1 && chain[k] == Block(at, false) && at !in free
      requires chain[k - 1] == Block(prev, false)
      modifies heap, this`chain, this`available
      ensures Linked() && Abs() == Model.MergeLeft(old(Abs()), k)
      ensures k - 1 < |chain| - 1 && chain[k - 1] == Block(prev, false) && chain[k] == old(chain[k + 1])
      ensures KeepsData(old(heap[..]), heap[..], old(Live(chain, HEADER)))
    {
      available := available + HEADER;
      UnlinkItem(at, k);
    }

    /** Take block k + 1, the free right neighbour of free block k, out of both lists.  The
        source leaves the address list first; the four words written are distinct, so the
        order makes no difference to the memory. */
    method DropNext(next: nat, ghost k: nat)
      requires Linked() && k + 1 < |chain| - 1 && !chain[k].used && chain[k + 1] == Block(next, false) && next in free
      modifies heap, this`chain, this`free
      ensures Linked() && chain == Absorb(old(chain), k + 1) && free == Without(old(free), next)
      ensures forall at | at !in old(free) :: at !in free
      ensures KeepsData(old(heap[..]), heap[..], old(Live(chain, HEADER))) && Live(chain, HEADER) == old(Live(chain, HEADER))
    {
      hide Live, IndexOf, AddressList, Ring, Tiled;
      WithoutMembers(free, next);
      AbsorbLive(chain, HEADER, poolSize - HEADER, k + 1);
      Delist(next);
      UnlinkItem(next, k + 1);
    }

    method MergeRight(at: nat, ghost k: nat)
      requires Linked() && k < |chain| - 1 && chain[k] == Block(at, false)
      requires !chain[k + 1].used ==> chain[k + 1].at in free
      modifies heap, this`chain, this`free, this`available
      ensures Linked() && Abs() == Model.MergeRight(old(Abs()), k)
      ensures k < |chain| - 1 && chain[k] == Block(at, false) && (at !in old(free) ==> at !in free)
      ensures Live(chain, HEADER) == old(Live(chain, HEADER))
      ensures KeepsData(old(heap[..]), heap[..], old(Live(chain, HEADER)))
    {
      hide Live, IndexOf, AddressList, Ring, Listed, Without;
      var next := NextItem(at, k);
      TailerUsed(chain, poolSize - HEADER);
      if !IsUsed(next, k + 1) {
        available := available + HEADER;
        DropNext(next, k);
      }
    }

    /** rt_memheap_free behind its checks. */
    method Release(at: nat, ghost i: nat)
      requires Valid() && i < |chain| - 1 && chain[i] == Block(at, true)
      modifies this, heap
      ensures Valid() && Abs() == Model.Free(old(Abs()), i)
      ensures KeepsData(old(heap[..]), heap[..], old(Live(Mark(chain, i, false), HEADER)))
    {
      hide Live, IndexOf, Listed, AddressList, Ring, Tiled, Coalesced, FreeList, Total;
      ghost var h := Abs();
      FreeSpec(h, i);
      BlockUnlisted(h, i);
      MarkLive(chain, HEADER, poolSize - HEADER, i, false);
      var size := ItemSize(at, i);
      SetUsed(at, false, i);
      available := available + size;
      NeighbourListed(h, i);
      LinkFreed(at, i);
    }

    /** The merges and the list insertion of rt_memheap_free for unlisted free block i. */
    method LinkFreed(at: nat, ghost i: nat)
      requires Linked() && i < |chain| - 1 && chain[i] == Block(at, false) && at !in free
      requires !chain[i + 1].used ==> chain[i + 1].at in free
      modifies this, heap
      ensures Linked()
      ensures var u := old(Abs());
              Abs() == if i > 0 && !u.chain[i - 1].used then Model.MergeRight(Model.MergeLeft(u, i), i - 1)
                       else var m := Model.MergeRight(u, i); m.(free := [at as nat] + m.free)
      ensures KeepsData(old(heap[..]), heap[..], old(Live(chain, HEADER)))
    {
      hide AddressList, Ring, Tiled;
      var prev := PrevItem(at, i);
      TailerUsed(chain, poolSize - HEADER);
      if !IsUsed(prev, if i > 0 then i - 1 else |chain| - 1) {
        AbsorbLive(chain, HEADER, poolSize - HEADER, i);
        MergeLeft(at, prev, i);
        MergeRight(prev, i - 1);
      } else {
        MergeRight(at, i);
        BlockIsFree(chain, poolSize - HEADER, i);
        PushFree(at);
      }
    }

    /** rt_memheap_free. */
    method Free(p: int)
      requires Valid() && Freeable(Abs(), p)
      modifies this, heap
      ensures Valid() && Abs() == FreePtr(old(Abs()), p)
      ensures KeepsData(old(heap[..]), heap[..], Live(chain, HEADER))
    {
      ghost var h := Abs();
      FreePtrSpec(h, p);
      if p == RT_NULL {
        return;
      }
      MarkLive(chain, HEADER, poolSize - HEADER, Owner(h, p), false);
      Release(p - HEADER, Owner(h, p));
    }

    /** rt_memheap_realloc: move the border to the free right neighbour. */
    method Grow(p: nat, words: nat, ghost i: nat)
      requires Valid() && Growable(chain, i, words) && chain[i].at + HEADER == p
      modifies this, heap
      ensures Valid() && Abs() == Model.Grow(old(Abs()), i, words)
      ensures KeepsData(old(heap[..]), heap[..], old(Live(chain, HEADER)))
    {
      hide Live, IndexOf, Listed, AddressList, Ring, Tiled, Coalesced, FreeList, Total;
      ghost var h, was := Abs(), heap[..];
      GrowInv(h, i, words);
      GrowLive(h, i, words);
      FreeIsListed(h, i + 1);
      LiveIntro(chain, HEADER, i);
      BorderReady(h, i, words);
      var oldSize := ItemSize(p - HEADER, i);
      var next := NextItem(p - HEADER, i);
      Charge(words - oldSize);
      Delist(next);
      UnlinkItem(next, i + 1);
      ghost var mid := heap[..];
      InsertItem(p - HEADER, p + words, i);
      PushFree(p + words);
      GrowKept(was, mid, heap[..], Live(h.chain, HEADER), Area(h.chain, HEADER, i), words);
    }

    /** The same steps for a size that has wrapped around 32 bits: the new header lands on the
        block's own header.  The next links still run through the chain the model gives. */
    method GrowInside(p: nat, words: nat, ghost i: nat)
      requires Valid() && i + 1 < |chain| - 1 && chain[i].at + HEADER == p && chain[i].used && !chain[i + 1].used
      requires words < ADDRESS_WORDS <= words + MINIALLOC && Room(chain, HEADER, i) < words
      modifies this, heap
      ensures Abs() == Model.Grow(old(Abs()), i, Distance(words))
      ensures NextChain(heap[..], chain)
      ensures KeepsData(old(heap[..]), heap[..], old(Live(chain, HEADER) - {Area(chain, HEADER, i)}))
    {
      hide Live, IndexOf, Listed, AddressList, Ring, Tiled, Coalesced, FreeList, Total, NextChain;
      ghost var h, was := Abs(), heap[..];
      FreeIsListed(h, i + 1);
      InsideReady(h, i);
      WrappedCounter(h, i, words);
      var oldSize := ItemSize(p - HEADER, i);
      var next := NextItem(p - HEADER, i);
      available := (available - (words - oldSize)) % ADDRESS_WORDS;
      maxUsed := Max(maxUsed, poolSize - available);
      Delist(next);
      UnlinkItem(next, i + 1);
      ghost var mid := heap[..];
      BuildInside(p - HEADER, p + words - ADDRESS_WORDS, i);
      InsideKept(h, was, mid, heap[..], i);
    }

    /** Header and list stores at x, which lies inside the header of block i. */
    method BuildInside(at: nat, x: nat, ghost i: nat)
      requires Linked() && i < |chain| - 1 && chain[i] == Block(at, true)
      requires at + PREV <= x < at + HEADER && x + PREV_FREE < chain[i + 1].at
      modifies heap, this`chain, this`free
      ensures chain == Split(old(chain), i, Block(x, false)) && free == [x] + old(free)
      ensures NextChain(heap[..], chain)
      ensures KeepsData(old(heap[..]), heap[..], old(Live(chain, HEADER) - {Area(chain, HEADER, i)}))
    {
      hide Live, IndexOf, Listed, AddressList, Ring, Tiled, NextChain;
      ghost var was, s := heap[..], RingOf(poolSize - HEADER, free);
      InsideBounds(was, chain, poolSize - HEADER, free, i, x);
      var head := poolSize;
      heap[x] := Tag(false);
      heap[x + POOL] := POOL_ID;
      heap[x + PREV] := at;
      heap[x + NEXT] := heap[at + NEXT];
      heap[heap[at + NEXT] + PREV] := x;
      heap[at + NEXT] := x;
      assert heap[..] == Inserted(was, chain, i, x);
      ghost var mid := heap[..];
      heap[x + NEXT_FREE] := heap[head + NEXT_FREE];
      heap[x + PREV_FREE] := head;
      heap[heap[head + NEXT_FREE] + PREV_FREE] := x;
      heap[head + NEXT_FREE] := x;
      assert heap[..] == Pushed(mid, s, x);
      InsideChain(was, chain, poolSize - HEADER, free, i, x);
      InsideData(was, chain, poolSize - HEADER, free, i, x);
      chain := Split(chain, i, Block(x, false));
      free := [x] + free;
    }

    /** rt_memheap_realloc: cut the tail off block i and merge it with a free right neighbour. */
    method Shrink(p: nat, words: nat, ghost i: nat)
      requires Valid() && Cuttable(chain, i, words) && chain[i].at + HEADER == p
      modifies this, heap
      ensures Valid() && Abs() == Model.Shrink(old(Abs()), i, words)
      ensures KeepsData(old(heap[..]), heap[..], Live(chain, HEADER))
    {
      hide Live, IndexOf, Listed, AddressList, Ring, Tiled, Coalesced, FreeList, Total;
      ghost var h := Abs();
      ShrinkSpec(h, i, words);
      CutLive(h, i, words);
      NeighbourListed(h, i);
      InsertItem(p - HEADER, p + words, i);
      CutChainShape(h.chain, i, p + words);
      TailMerge(p + words, i + 1);
      PushFree(p + words);
      var size := ItemSize(p + words, i + 1);
      available := available + size;
    }

    /** Merge unlisted free block k with a free right neighbour, whose size leaves available_size. */
    method TailMerge(x: nat, ghost k: nat)
      requires Linked() && k < |chain| - 1 && chain[k] == Block(x, false) && x !in free
      requires !chain[k + 1].used ==> chain[k + 1].at in free
      modifies heap, this`chain, this`free, this`available
      ensures Linked() && x !in free && IsFree(chain, x)
      ensures k < |chain| - 1 && chain[k] == Block(x, false)
      ensures chain == Model.MergeRight(old(Abs()), k).chain && free == Model.MergeRight(old(Abs()), k).free
      ensures available + Room(chain, HEADER, k) == Model.MergeRight(old(Abs()), k).available + old(Room(chain, HEADER, k))
      ensures KeepsData(old(heap[..]), heap[..], old(Live(chain, HEADER))) && Live(chain, HEADER) == old(Live(chain, HEADER))
    {
      hide Live, IndexOf, AddressList, Ring, Listed, Without;
      var next := NextItem(x, k);
      TailerUsed(chain, poolSize - HEADER);
      if !IsUsed(next, k + 1) {
        var size := ItemSize(next, k + 1);
        available := available - size;
        DropNext(next, k);
      }
      BlockIsFree(chain, poolSize - HEADER, k);
    }

    /** rt_memheap_realloc.  The other allocations keep their contents, and a returned block
        starts with the words the old one held, as many as both have room for. */
    method Realloc(p: int, bytes: nat) returns (r: int)
      requires Valid() && Freeable(Abs(), p)
      modifies this, heap
      ensures Outcome(Abs(), r) == Model.Realloc(old(Abs()), p, bytes)
      ensures Survives(old(Abs()), p, bytes) ==> Valid()
      ensures Valid() || NextChain(heap[..], chain)
      ensures KeepsData(old(heap[..]), heap[..], old(Others(Abs(), p)))
      ensures r == RT_NULL && bytes > 0 ==> heap[..] == old(heap[..])
      ensures Valid() && r != RT_NULL && p != RT_NULL ==>
                Carried(old(heap[..]), heap[..], p, r, Min(Request(bytes), SizeOf(old(Abs()), p)))
    {
      if bytes == 0 {
        FreePtrSpec(Abs(), p);
        Free(p);
        return RT_NULL;
      }
      var size := AlignWords(bytes);
      if size < MINIALLOC {
        size := MINIALLOC;
      }
      if p == RT_NULL {
        r := Alloc(4 * size);
      } else {
        RequestAgain(bytes);
        AllocatedInside(Abs(), p);
        TestOutcome(Abs(), p, bytes);
        r := Resize(p, size);
      }
    }

    /** rt_memheap_realloc on a live block. */
    method Resize(p: nat, words: nat) returns (r: int)
      requires Valid() && Allocated(Abs(), p) && 0 < words < ADDRESS_WORDS && Request(4 * words) == words
      modifies this, heap
      ensures Outcome(Abs(), r) == Model.Resize(old(Abs()), p, words)
      ensures !Wraps(old(Abs()), p, words) ==> Valid()
      ensures Valid() || NextChain(heap[..], chain)
      ensures KeepsData(old(heap[..]), heap[..], old(Others(Abs(), p)))
      ensures r == RT_NULL ==> heap[..] == old(heap[..])
      ensures Valid() && r != RT_NULL ==>
                Carried(old(heap[..]), heap[..], p, r, Min(words, SizeOf(old(Abs()), p)))
    {
      hide Live, IndexOf, Listed, AddressList, Ring, Tiled, Coalesced, FreeList, Total, NextChain;
      ghost var h, was, i := Abs(), heap[..], Owner(Abs(), p);
      AllocatedInside(h, p);
      var oldSize := ItemSize(p - HEADER, i);
      if words > oldSize {
        r := Enlarge(p, words, oldSize);
      } else if words + HEADER + MINIALLOC >= oldSize {
        r := p;
      } else {
        Shrink(p, words, i);
        ShrunkKept(h, was, heap[..], p, words);
        r := p;
      }
    }

    /** The branch of rt_memheap_realloc for a larger size. */
    method Enlarge(p: nat, words: nat, oldSize: nat) returns (r: int)
      requires Valid() && Allocated(Abs(), p) && words < ADDRESS_WORDS && Request(4 * words) == words
      requires oldSize == SizeOf(Abs(), p) && oldSize < words
      modifies this, heap
      ensures Outcome(Abs(), r) == Model.Resize(old(Abs()), p, words)
      ensures !Wraps(old(Abs()), p, words) ==> Valid()
      ensures Valid() || NextChain(heap[..], chain)
      ensures KeepsData(old(heap[..]), heap[..], old(Others(Abs(), p)))
      ensures r == RT_NULL ==> heap[..] == old(heap[..])
      ensures Valid() && r != RT_NULL ==> Carried(old(heap[..]), heap[..], p, r, oldSize)
    {
      hide Live, IndexOf, Listed, AddressList, Ring, Tiled, Coalesced, FreeList, Total, NextChain;
      ghost var h, was, i := Abs(), heap[..], Owner(Abs(), p);
      AllocatedInside(h, p);
      var room := HasRoom(p, words, oldSize, i);
      if !room {
        r := Move(p, words, oldSize);
      } else if words + MINIALLOC < ADDRESS_WORDS {
        RoomTestExact(chain, i, words);
        Grow(p, words, i);
        OldKept(h, was, heap[..], p, oldSize);
        r := p;
      } else {
        WrappedGrow(h, i, words);
        GrowInside(p, words, i);
        r := p;
      }
    }

    /** The room test, in 32-bit arithmetic. */
    method HasRoom(p: nat, words: nat, oldSize: nat, ghost i: nat) returns (room: bool)
      requires Linked() && i < |chain| - 1 && chain[i].at + HEADER == p && chain[i].used
      requires oldSize == Room(chain, HEADER, i) < words
      ensures room == RoomTest(chain, i, words)
    {
      hide Listed, AddressList, Ring, Tiled;
      var next := NextItem(p - HEADER, i);
      TailerUsed(chain, poolSize - HEADER);
      room := false;
      if !IsUsed(next, i + 1) {
        var nextSize := ItemSize(next, i + 1);
        room := nextSize + oldSize > (words + MINIALLOC) % ADDRESS_WORDS;
      }
    }

    /** The allocate, copy, free path of rt_memheap_realloc. */
    method Move(p: nat, words: nat, size: nat) returns (r: int)
      requires Valid() && Allocated(Abs(), p) && Request(4 * words) == words
      requires size == SizeOf(Abs(), p)
      modifies this, heap
      ensures Valid() && Outcome(Abs(), r) == Model.Move(old(Abs()), p, words)
      ensures KeepsData(old(heap[..]), heap[..], old(Others(Abs(), p)))
      ensures r == RT_NULL ==> heap[..] == old(heap[..])
      ensures r != RT_NULL ==> Carried(old(heap[..]), heap[..], p, r, Min(words, size))
    {
      hide Live, IndexOf, Listed, AddressList, Ring, Tiled, Coalesced, FreeList, Total;
      ghost var h, was := Abs(), heap[..];
      r := Alloc(4 * words);
      if r != RT_NULL {
        ghost var mid, m := heap[..], Abs();
        ghost var x := MovePlan(h, p, words);
        CopyInto(r, p, Min(size, words), x);
        ghost var copied := heap[..];
        FreePtrSpec(m, p);
        Free(p);
        MoveKept(h, was, mid, copied, heap[..], m, Abs(), p, r, Min(size, words), x);
      }
    }

    /** rt_memcpy into allocated area x. */
    method CopyInto(dst: nat, src: nat, n: nat, ghost x: (nat, int))
      requires Linked() && x in Live(chain, HEADER) && x.0 == dst && n <= x.1
      requires src + n <= dst || dst + x.1 <= src
      requires src + n <= poolSize - HEADER
      modifies heap
      ensures Linked()
      ensures Carried(old(heap[..]), heap[..], src, dst, n)
      ensures KeepsData(old(heap[..]), heap[..], Live(chain, HEADER) - {x})
    {
      ghost var was := heap[..];
      LiveInside(chain, HEADER, poolSize - HEADER, x);
      CopyWords(heap, dst, src, n);
      DataWrite(was, heap[..], chain, poolSize - HEADER, free, x);
    }
  }

  /** The next links, and the used flags, of the chain. */
  ghost predicate NextChain(mem: seq<int>, c: seq<Block>) {
    forall k: nat | k < |c| - 1 :: NextItemAt(mem, c, k)
  }

  predicate NextItemAt(mem: seq<int>, c: seq<Block>, k: nat)
    requires k < |c| - 1
  {
    c[k].at + NEXT < |mem| && mem[c[k].at] == Tag(c[k].used) && mem[c[k].at + NEXT] == c[k + 1].at
  }

  lemma InsideReady(h: Model.MemHeap, i: nat)
    requires Inv(h) && i + 1 < |h.chain| - 1
    ensures var c, d := h.chain, Absorb(h.chain, i + 1);
            && |d| == |c| - 1 && d[i] == c[i] && d[i + 1] == c[i + 2]
            && c[i].at + HEADER < c[i + 1].at && c[i + 1].at + HEADER < c[i + 2].at
  {
  }

  /** The stores at x, inside the header of used block i, stay inside the memory. */
  lemma InsideBounds(mem: seq<int>, c: seq<Block>, end: nat, free: seq<nat>, i: nat, x: nat)
    requires Tiled(c, HEADER, end) && Listed(c, free) && AddressList(mem, c) && Ring(mem, RingOf(end, free))
    requires i < |c| - 1 && c[i].at + PREV <= x < c[i].at + HEADER && x + PREV_FREE < c[i + 1].at
    ensures c[i].at + PREV_FREE < |mem| && c[i + 1].at + PREV_FREE < |mem| && end + HEADER + PREV_FREE < |mem|
    ensures mem[c[i].at + NEXT] == c[i + 1].at
    ensures var f := RingNext(RingOf(end, free), 0);
            && f + PREV_FREE < |mem| && mem[end + HEADER + NEXT_FREE] == f
            && Inserted(mem, c, i, x)[end + HEADER + NEXT_FREE] == f
  {
    hide Live, IndexOf;
    assert ItemAt(mem, c, i) && ItemAt(mem, c, i + 1);
    var s := RingOf(end, free);
    assert RingAt(mem, s, 0);
    assert RingAt(mem, s, if |s| > 1 then 1 else 0);
    LastIsEnd(c, end, i + 1);
  }

  lemma LastIsEnd(c: seq<Block>, end: nat, i: nat)
    requires Tiled(c, HEADER, end) && i < |c|
    ensures c[i].at <= end
  {
  }

  lemma InsideChain(mem: seq<int>, c: seq<Block>, end: nat, free: seq<nat>, i: nat, x: nat)
    requires Tiled(c, HEADER, end) && Listed(c, free) && AddressList(mem, c) && Ring(mem, RingOf(end, free))
    requires i < |c| - 1 && c[i].used && c[i].at + PREV <= x < c[i].at + HEADER && x + PREV_FREE < c[i + 1].at
    requires c[i + 1].at + PREV < |mem| && end + HEADER + NEXT_FREE < |mem| && RingNext(RingOf(end, free), 0) + PREV_FREE < |mem|
    ensures NextChain(Pushed(Inserted(mem, c, i, x), RingOf(end, free), x), Split(c, i, Block(x, false)))
  {
    hide Tiled, Listed, Ring, Inserted, Pushed, Split;
    var r := Split(c, i, Block(x, false));
    var s := RingOf(end, free);
    var w := Pushed(Inserted(mem, c, i, x), s, x);
    assert ItemAt(mem, c, i);
    FirstItem(c, end, free, i);
    LastIsEnd(c, end, i + 1);
    SplitItems(c, i, x);
    InsideOwn(mem, c, i, x, s);
    forall k: nat | k < |r| - 1 ensures NextItemAt(w, r, k) {
      assert r[k + 1] == if k == i then Block(x, false) else c[if k < i then k + 1 else k];
      if k != i && k != i + 1 {
        var n := if k <= i then k else k - 1;
        assert ItemAt(mem, c, n);
        OtherItem(c, end, free, i, n);
        InsideWordKept(mem, c, i, x, s, c[n].at);
        InsideWordKept(mem, c, i, x, s, c[n].at + NEXT);
      } else {
        assert ItemAt(mem, c, i);
      }
    }
  }

  lemma SplitItems(c: seq<Block>, i: nat, x: nat)
    requires i < |c| - 1
    ensures var r := Split(c, i, Block(x, false));
            && |r| == |c| + 1 && r[i + 1] == Block(x, false)
            && forall k: nat | k < |r| && k != i + 1 :: r[k] == c[if k <= i then k else k - 1]
  {
  }

  lemma OtherItem(c: seq<Block>, end: nat, free: seq<nat>, i: nat, n: nat)
    requires Tiled(c, HEADER, end) && Listed(c, free) && i < |c| - 1 && n < |c| - 1 && n != i
    ensures var f := RingNext(RingOf(end, free), 0);
            && (c[n].at + HEADER <= c[i].at || c[i + 1].at <= c[n].at) && c[n].at + HEADER <= end
            && (c[n].at == c[i + 1].at || Clear(c[n].at, c[i + 1].at))
            && (c[n].at == f || Clear(c[n].at, f))
  {
    Apart(c, end, n, i);
    Apart(c, end, n, i + 1);
    Apart(c, end, n, |c| - 1);
    LastIsEnd(c, end, n);
    ItemBesideChain(c, end, free, if |free| > 0 then 1 else 0);
    if n > i { LaterBlock(c, end, i + 1, n); } else { LaterBlock(c, end, n + 1, i); }
  }

  /** A word at address a that none of the ten stores goes to. */
  lemma InsideWordKept(mem: seq<int>, c: seq<Block>, i: nat, x: nat, s: seq<nat>, a: nat)
    requires i < |c| - 1 && c[i].at + NEXT < |mem| && x + PREV_FREE < |mem| && c[i + 1].at + PREV < |mem|
    requires s != [] && s[0] + NEXT_FREE < |mem| && RingNext(s, 0) + PREV_FREE < |mem| && a < |mem|
    requires a != c[i].at + NEXT && a != c[i + 1].at + PREV && !(x <= a <= x + PREV_FREE)
    requires a != s[0] + NEXT_FREE && a != RingNext(s, 0) + PREV_FREE
    ensures Pushed(Inserted(mem, c, i, x), s, x)[a] == mem[a]
  {
  }

  /** The block's own links and those of the new header. */
  lemma InsideOwn(mem: seq<int>, c: seq<Block>, i: nat, x: nat, s: seq<nat>)
    requires i < |c| - 1 && ItemAt(mem, c, i) && x + PREV_FREE < c[i + 1].at && c[i + 1].at + PREV < |mem|
    requires c[i].at + PREV <= x < c[i].at + HEADER
    requires s != [] && c[i + 1].at < s[0] && s[0] + NEXT_FREE < |mem| && RingNext(s, 0) + PREV_FREE < |mem|
    requires RingNext(s, 0) + HEADER <= c[i].at || c[i + 1].at <= RingNext(s, 0)
    ensures var w := Pushed(Inserted(mem, c, i, x), s, x);
            && w[c[i].at] == mem[c[i].at] && w[c[i].at + NEXT] == x
            && w[x] == Tag(false) && w[x + NEXT] == c[i + 1].at
  {
  }

  /** The first listed item, or the list header, lies clear of used block i. */
  lemma FirstItem(c: seq<Block>, end: nat, free: seq<nat>, i: nat)
    requires Tiled(c, HEADER, end) && Listed(c, free) && i < |c| - 1 && c[i].used
    ensures var f := RingNext(RingOf(end, free), 0);
            f + HEADER <= c[i].at || c[i + 1].at <= f
  {
    var a := RingItem(c, end, free, if |free| > 0 then 1 else 0);
    LastIsEnd(c, end, i + 1);
    if |free| > 0 {
      assert a != i;
      if a > i { LaterBlock(c, end, i + 1, a); } else { Apart(c, end, a, i); LaterBlock(c, end, a, i); }
    }
  }

  lemma LaterBlock(c: seq<Block>, end: nat, i: nat, j: nat)
    requires Tiled(c, HEADER, end) && i <= j < |c|
    ensures c[i].at <= c[j].at
  {
  }

  lemma InsideData(mem: seq<int>, c: seq<Block>, end: nat, free: seq<nat>, i: nat, x: nat)
    requires Tiled(c, HEADER, end) && Listed(c, free) && AddressList(mem, c) && Ring(mem, RingOf(end, free))
    requires i < |c| - 1 && c[i].used && c[i].at + PREV <= x < c[i].at + HEADER && x + PREV_FREE < c[i + 1].at
    requires c[i + 1].at + PREV < |mem| && end + HEADER + NEXT_FREE < |mem| && RingNext(RingOf(end, free), 0) + PREV_FREE < |mem|
    ensures KeepsData(mem, Pushed(Inserted(mem, c, i, x), RingOf(end, free), x), Live(c, HEADER) - {Area(c, HEADER, i)})
  {
    hide Live, IndexOf, Ring, AddressList;
    var s := RingOf(end, free);
    var w := Pushed(Inserted(mem, c, i, x), s, x);
    LiveIntro(c, HEADER, i);
    forall y, k | y in Live(c, HEADER) - {Area(c, HEADER, i)} && y.0 <= k < y.0 + y.1 && k < |mem| ensures w[k] == mem[k] {
      LiveDisjoint(c, HEADER, end, Area(c, HEADER, i), y);
      ItemOutside(c, end, free, 0, y);
      ItemOutside(c, end, free, if |free| > 0 then 1 else 0, y);
      LiveClear(c, HEADER, end, y, k);
      NotHeader(c, i, k);
      NotHeader(c, i + 1, k);
    }
  }

  lemma NotHeader(c: seq<Block>, i: nat, k: int)
    requires i < |c| && !HeaderWord(c, HEADER, k)
    ensures k < c[i].at || c[i].at + HEADER <= k
  {
  }

  /** Other allocations keep their words through the unlinking and the building. */
  lemma InsideKept(h: Model.MemHeap, was: seq<int>, mid: seq<int>, now: seq<int>, i: nat)
    requires Inv(h) && i + 1 < |h.chain| - 1 && h.chain[i].used && !h.chain[i + 1].used
    requires KeepsData(was, mid, Live(h.chain, HEADER))
    requires var d := Absorb(h.chain, i + 1);
             i < |d| - 1 && KeepsData(mid, now, Live(d, HEADER) - {Area(d, HEADER, i)})
    ensures KeepsData(was, now, Live(h.chain, HEADER) - {Area(h.chain, HEADER, i)})
  {
    hide Live, Total, IndexOf;
    var c, d := h.chain, Absorb(h.chain, i + 1);
    AbsorbUsedLive(c, HEADER, h.End(), i + 1);
    InsideReady(h, i);
    var x := Area(d, HEADER, i);
    if x != Area(c, HEADER, i) { LiveStartsOnce(c, HEADER, h.End(), i, x); }
    KeptTwice(was, mid, now, Live(c, HEADER), Live(d, HEADER) - {x}, Live(c, HEADER) - {Area(c, HEADER, i)});
  }

  /** The room test passes with a sum that has wrapped around. */
  predicate Wraps(h: Model.MemHeap, p: int, words: nat)
    requires Allocated(h, p)
  {
    RoomTest(h.chain, Owner(h, p), words) && words + MINIALLOC >= ADDRESS_WORDS
  }

  lemma TestOutcome(h: Model.MemHeap, p: int, bytes: nat)
    requires Inv(h) && Allocated(h, p) && bytes != 0
    ensures Survives(h, p, bytes) ==> !Wraps(h, p, Request(bytes))
  {
  }

  lemma AllocatedInside(h: Model.MemHeap, p: int)
    requires Inv(h) && Allocated(h, p)
    ensures HEADER <= p && p + SizeOf(h, p) <= h.End() && SizeOf(h, p) > 0
    ensures (p as nat, SizeOf(h, p)) in Live(h.chain, HEADER)
  {
    LiveIntro(h.chain, HEADER, Owner(h, p));
    LiveInside(h.chain, HEADER, h.End(), AreaOf(h, p));
  }

  function SizeOf(h: Model.MemHeap, p: int): int
    requires Allocated(h, p)
  {
    Room(h.chain, HEADER, Owner(h, p))
  }

  function AreaOf(h: Model.MemHeap, p: int): (nat, int)
    requires Allocated(h, p)
  {
    Area(h.chain, HEADER, Owner(h, p))
  }

  /** The allocations other than p's. */
  function Others(h: Model.MemHeap, p: int): set<(nat, int)> {
    if Allocated(h, p) then Live(h.chain, HEADER) - {AreaOf(h, p)} else Live(h.chain, HEADER)
  }

  /** Writing inside one allocated area disturbs neither list and no other area. */
  lemma DataWrite(m: seq<int>, w: seq<int>, c: seq<Block>, end: nat, free: seq<nat>, x: (nat, int))
    requires Tiled(c, HEADER, end) && Listed(c, free) && AddressList(m, c) && Ring(m, RingOf(end, free))
    requires x in Live(c, HEADER) && |m| == |w|
    requires forall k | 0 <= k < |m| && !(x.0 <= k < x.0 + x.1) :: w[k] == m[k]
    ensures AddressList(w, c) && Ring(w, RingOf(end, free)) && KeepsData(m, w, Live(c, HEADER) - {x})
  {
    hide Live, IndexOf;
    LiveInside(c, HEADER, end, x);
    forall i: nat | i < |c| ensures ItemAt(w, c, i) {
      assert ItemAt(m, c, i);
    }
    var s := RingOf(end, free);
    forall k: nat | k < |s| ensures RingAt(w, s, k) {
      assert RingAt(m, s, k);
      ItemOutside(c, end, free, k, x);
    }
    forall y, k | y in Live(c, HEADER) - {x} && y.0 <= k < y.0 + y.1 && k < |m| ensures w[k] == m[k] {
      LiveDisjoint(c, HEADER, end, x, y);
    }
  }

  lemma OldKept(h: Model.MemHeap, was: seq<int>, now: seq<int>, p: nat, n: nat)
    requires Inv(h) && Allocated(h, p) && n == SizeOf(h, p) && |was| >= h.poolSize
    requires KeepsData(was, now, Live(h.chain, HEADER))
    ensures KeepsData(was, now, Others(h, p)) && Carried(was, now, p, p, n)
  {
    AllocatedInside(h, p);
    KeptPrefix(was, now, Live(h.chain, HEADER), (p, SizeOf(h, p)), n);
  }

  lemma ShrunkKept(h: Model.MemHeap, was: seq<int>, now: seq<int>, p: nat, words: nat)
    requires Inv(h) && Allocated(h, p) && Cuttable(h.chain, Owner(h, p), words) && |was| >= h.poolSize
    requires KeepsData(was, now, Live(Model.Shrink(h, Owner(h, p), words).chain, HEADER))
    ensures KeepsData(was, now, Others(h, p)) && Carried(was, now, p, p, words)
  {
    hide Live;
    AllocatedInside(h, p);
    ShrinkSpec(h, Owner(h, p), words);
    var after := Live(Model.Shrink(h, Owner(h, p), words).chain, HEADER);
    assert (p, words as int) in after;
    KeptPrefix(was, now, after, (p, words), words);
    KeptSubset(was, now, after, Others(h, p));
  }

  /** The area a moving rt_memheap_realloc copies into. */
  lemma MovePlan(h: Model.MemHeap, p: int, words: nat) returns (x: (nat, int))
    requires Inv(h) && Allocated(h, p) && Request(4 * words) == words && Model.Alloc(h, 4 * words).ptr != RT_NULL
    ensures Allocated(Model.Alloc(h, 4 * words).heap, p) && Inv(Model.Alloc(h, 4 * words).heap)
    ensures var a := Model.Alloc(h, 4 * words);
            && Live(a.heap.chain, HEADER) == Live(h.chain, HEADER) + {x} && x !in Live(h.chain, HEADER)
            && AreaOf(a.heap, p) == AreaOf(h, p) && a.heap.poolSize == h.poolSize
            && x.0 == a.ptr && x.1 >= words
            && (p + SizeOf(h, p) <= x.0 || x.0 + x.1 <= p) && 0 <= p && p + SizeOf(h, p) <= h.End()
  {
    hide Live, Tiled, FreeList, Coalesced, Total;
    var m := Model.Alloc(h, 4 * words);
    AllocServed(h, 4 * words);
    AllocKeepsArea(h, 4 * words, p);
    x := Area(m.heap.chain, HEADER, Choice(h, 4 * words));
    FreshNotLive(h, x);
    AllocatedInside(h, p);
    LiveDisjoint(m.heap.chain, HEADER, m.heap.End(), AreaOf(h, p), x);
  }

  lemma FreshNotLive(h: Model.MemHeap, x: (nat, int))
    requires Inv(h) && !Allocated(h, x.0)
    ensures x !in Live(h.chain, HEADER)
  {
    if x in Live(h.chain, HEADER) {
      var i := LiveWitness(h.chain, HEADER, x);
      IndexOfHeader(h.chain, HEADER, h.End(), i);
    }
  }

  /** Contents across allocate (was to mid), copy (to copied) and free (to now). */
  lemma MoveKept(h: Model.MemHeap, was: seq<int>, mid: seq<int>, copied: seq<int>, now: seq<int>,
                 m: Model.MemHeap, f: Model.MemHeap, p: nat, r: nat, n: nat, x: (nat, int))
    requires Inv(h) && Allocated(h, p) && |was| >= h.poolSize && n <= SizeOf(h, p) && n <= x.1 && x.0 == r
    requires Live(m.chain, HEADER) == Live(h.chain, HEADER) + {x} && x !in Live(h.chain, HEADER)
    requires Live(f.chain, HEADER) == Live(m.chain, HEADER) - {AreaOf(h, p)}
    requires KeepsData(was, mid, Live(h.chain, HEADER)) && KeepsData(mid, copied, Live(m.chain, HEADER) - {x})
    requires KeepsData(copied, now, Live(f.chain, HEADER)) && Carried(mid, copied, p, r, n)
    ensures KeepsData(was, now, Others(h, p)) && Carried(was, now, p, r, n)
  {
    hide Live;
    AllocatedInside(h, p);
    var others := Others(h, p);
    KeptTwice(was, mid, copied, Live(h.chain, HEADER), Live(m.chain, HEADER) - {x}, others);
    KeptTwice(was, copied, now, others, Live(f.chain, HEADER), others);
    KeptPrefix(was, mid, Live(h.chain, HEADER), AreaOf(h, p), n);
    KeptPrefix(copied, now, Live(f.chain, HEADER), x, n);
  }

  /** The border of block i can move to words words, in the chain without its neighbour. */
  lemma BorderReady(h: Model.MemHeap, i: nat, words: nat)
    requires Inv(h) && Growable(h.chain, i, words)
    ensures var c, d := h.chain, Absorb(h.chain, i + 1);
            && |d| == |c| - 1 && d[i] == c[i] && d[i + 1] == c[i + 2]
            && c[i].at + HEADER + words + HEADER < c[i + 2].at && 0 < Room(c, HEADER, i)
  {
    BorderTiled(h.chain, h.End(), i, h.chain[i].at + HEADER + words);
  }

  lemma CutChainShape(c: seq<Block>, i: nat, x: nat)
    requires i < |c| - 1
    ensures Split(c, i, Block(x, false))[i + 2] == c[i + 1]
  {
  }

  lemma GrowKept(m0: seq<int>, m1: seq<int>, m2: seq<int>, live: set<(nat, int)>, area: (nat, int), words: nat)
    requires KeepsData(m0, m1, live) && KeepsData(m1, m2, live - {area} + {(area.0, words)})
    requires area in live && area.1 <= words
    ensures KeepsData(m0, m2, live)
  {
    forall x, k | x in live && x.0 <= k < x.0 + x.1 && k < |m0| ensures m2[k] == m0[k] {
      if x == area {
        assert (area.0, words as int) in live - {area} + {(area.0, words)};
      } else {
        assert x in live - {area} + {(area.0, words)};
      }
    }
  }

  lemma TailerUsed(c: seq<Block>, end: nat)
    requires Tiled(c, HEADER, end)
    ensures |c| >= 2 && c[|c| - 1].used
  {
  }

  lemma BlockIsFree(c: seq<Block>, end: nat, i: nat)
    requires Tiled(c, HEADER, end) && i < |c| - 1 && !c[i].used
    ensures IsFree(c, c[i].at)
  {
    IsFreeAt(c, HEADER, end, i);
  }

  lemma BlockUnlisted(h: Model.MemHeap, i: nat)
    requires Inv(h) && i < |h.chain| - 1 && h.chain[i].used
    ensures h.chain[i].at !in h.free
  {
    IsFreeAt(h.chain, HEADER, h.End(), i);
  }

  lemma NeighbourListed(h: Model.MemHeap, i: nat)
    requires Inv(h) && i < |h.chain| - 1
    ensures !h.chain[i + 1].used ==> h.chain[i + 1].at in h.free
  {
    if !h.chain[i + 1].used {
      FreeIsListed(h, i + 1);
    }
  }

  lemma ListedItem(c: seq<Block>, end: nat, free: seq<nat>, k: nat)
    requires Tiled(c, HEADER, end) && Listed(c, free) && k < |free|
    ensures var i := IndexOf(c, free[k]);
            && i < |c| - 1 && c[i] == Block(free[k], false) && RoomAt(c, free[k]) == Room(c, HEADER, i)
            && IsFree(c, free[k]) && RingOf(end, free)[k + 1] == free[k] && free[k] != end + HEADER
  {
    assert free[k] in free;
    Apart(c, end, IndexOf(c, free[k]), |c| - 1);
  }

  lemma TaggedPool(mem: seq<int>, c: seq<Block>, end: nat, free: seq<nat>, k: nat, used: bool)
    requires Tiled(c, HEADER, end) && Listed(c, free) && AddressList(mem, c) && Ring(mem, RingOf(end, free))
    requires k < |c| - 1 && c[k].at !in free && end + HEADER <= |mem|
    ensures c[k].at + PREV_FREE < |mem|
    ensures var w, d := mem[c[k].at := Tag(used)], Mark(c, k, used);
            && Tiled(d, HEADER, end) && AddressList(w, d) && Ring(w, RingOf(end, free)) && Listed(d, free)
            && KeepsData(mem, w, Live(c, HEADER))
  {
    hide Live, IndexOf;
    var w, d := mem[c[k].at := Tag(used)], Mark(c, k, used);
    TaggedList(mem, c, end, k, used);
    MarkTiled(c, HEADER, end, k, used);
    HeaderBesideRing(c, end, free, k);
    AddressWriteKeepsRing(mem, RingOf(end, free), c[k].at, 0, Tag(used));
    forall at | at in free ensures IsFree(d, at) {
      MarkIsFree(c, HEADER, end, k, used, at);
    }
    assert HeaderWord(c, HEADER, c[k].at);
    HeadersOnly(mem, w, c, HEADER, end);
  }

  lemma UnlinkedPool(mem: seq<int>, c: seq<Block>, end: nat, free: seq<nat>, k: nat)
    requires Tiled(c, HEADER, end) && Listed(c, free) && AddressList(mem, c) && Ring(mem, RingOf(end, free))
    requires 0 < k < |c| - 1 && !c[k].used && c[k].at !in free && end + HEADER <= |mem|
    ensures c[k - 1].at + PREV_FREE < |mem| && c[k + 1].at + PREV_FREE < |mem| && c[k].at + PREV_FREE < |mem|
    ensures mem[c[k].at + NEXT] == c[k + 1].at && mem[c[k].at + PREV] == c[k - 1].at
    ensures var w, d := Unlinked(mem, c, k), Absorb(c, k);
            && Tiled(d, HEADER, end) && AddressList(w, d) && Ring(w, RingOf(end, free)) && Listed(d, free)
            && KeepsData(mem, w, Live(c, HEADER))
  {
    hide Live, IndexOf, Listed, Ring;
    assert ItemAt(mem, c, k);
    UnlinkedList(mem, c, end, k);
    AbsorbTiled(c, HEADER, end, k);
    UnlinkedRing(mem, c, end, free, k);
    UnlinkedListed(c, end, free, k);
    UnlinkedData(mem, c, end, k);
  }

  lemma UnlinkedRing(mem: seq<int>, c: seq<Block>, end: nat, free: seq<nat>, k: nat)
    requires Tiled(c, HEADER, end) && Listed(c, free) && Ring(mem, RingOf(end, free))
    requires 0 < k < |c| - 1 && c[k - 1].at + PREV_FREE < |mem| && c[k + 1].at + PREV_FREE < |mem|
    ensures Ring(Unlinked(mem, c, k), RingOf(end, free))
  {
    hide Live, IndexOf, Listed, Ring, Tiled;
    var s := RingOf(end, free);
    HeaderBesideRing(c, end, free, k - 1);
    HeaderBesideRing(c, end, free, k + 1);
    AddressWriteKeepsRing(mem, s, c[k - 1].at, NEXT, c[k + 1].at);
    AddressWriteKeepsRing(mem[c[k - 1].at + NEXT := c[k + 1].at], s, c[k + 1].at, PREV, c[k - 1].at);
  }

  lemma UnlinkedListed(c: seq<Block>, end: nat, free: seq<nat>, k: nat)
    requires Tiled(c, HEADER, end) && Listed(c, free) && 0 < k < |c| - 1 && !c[k].used && c[k].at !in free
    ensures Listed(Absorb(c, k), free)
  {
    hide IndexOf, Tiled;
    forall at | at in free ensures IsFree(Absorb(c, k), at) {
      AbsorbIsFree(c, HEADER, end, k, at);
    }
  }

  lemma UnlinkedData(mem: seq<int>, c: seq<Block>, end: nat, k: nat)
    requires Tiled(c, HEADER, end) && 0 < k < |c| - 1 && end <= |mem|
    requires c[k - 1].at + PREV_FREE < |mem| && c[k + 1].at + PREV_FREE < |mem|
    ensures KeepsData(mem, Unlinked(mem, c, k), Live(c, HEADER))
  {
    hide Live, Tiled;
    assert HeaderWord(c, HEADER, c[k - 1].at + NEXT) && HeaderWord(c, HEADER, c[k + 1].at + PREV);
    HeadersOnly(mem, Unlinked(mem, c, k), c, HEADER, end);
  }

  lemma InsertedPool(mem: seq<int>, c: seq<Block>, end: nat, free: seq<nat>, k: nat, x: nat)
    requires Tiled(c, HEADER, end) && Listed(c, free) && AddressList(mem, c) && Ring(mem, RingOf(end, free))
    requires k < |c| - 1 && c[k].at + HEADER < x && x + HEADER < c[k + 1].at && end + HEADER <= |mem|
    ensures c[k].at + PREV_FREE < |mem| && c[k + 1].at + PREV_FREE < |mem|
    ensures mem[c[k].at + NEXT] == c[k + 1].at
    ensures var w, d := Inserted(mem, c, k, x), Split(c, k, Block(x, false));
            && Tiled(d, HEADER, end) && AddressList(w, d) && Ring(w, RingOf(end, free)) && Listed(d, free)
            && KeepsData(mem, w, Live(d, HEADER)) && x !in free && IsFree(d, x)
  {
    hide Live, IndexOf;
    assert ItemAt(mem, c, k);
    InsertedList(mem, c, end, k, x);
    SplitTiled(c, HEADER, end, k, Block(x, false));
    InsertedListed(c, end, free, k, x);
    InsertedRing(mem, c, end, free, k, x);
    InsertedData(mem, c, end, k, x);
  }

  lemma InsertedListed(c: seq<Block>, end: nat, free: seq<nat>, k: nat, x: nat)
    requires Tiled(c, HEADER, end) && Listed(c, free)
    requires k < |c| - 1 && c[k].at + HEADER < x && x + HEADER < c[k + 1].at
    ensures Listed(Split(c, k, Block(x, false)), free) && x !in free && IsFree(Split(c, k, Block(x, false)), x)
  {
    hide IndexOf;
    var b := Block(x, false);
    SplitTiled(c, HEADER, end, k, b);
    NoHeaderBetween(c, end, k, x);
    SplitIsFree(c, HEADER, end, k, b, x);
    forall at | at in free ensures IsFree(Split(c, k, b), at) {
      SplitIsFree(c, HEADER, end, k, b, at);
    }
  }

  lemma InsertedRing(mem: seq<int>, c: seq<Block>, end: nat, free: seq<nat>, k: nat, x: nat)
    requires Tiled(c, HEADER, end) && Listed(c, free) && Ring(mem, RingOf(end, free))
    requires k < |c| - 1 && c[k].at + HEADER < x && x + HEADER < c[k + 1].at && c[k + 1].at + PREV < |mem|
    ensures Ring(Inserted(mem, c, k, x), RingOf(end, free))
  {
    hide IndexOf, Tiled, Listed, Ring;
    var s, d := RingOf(end, free), Split(c, k, Block(x, false));
    SplitTiled(c, HEADER, end, k, Block(x, false));
    InsertedListed(c, end, free, k, x);
    assert d[k + 1].at == x;
    HeaderBesideRing(d, end, free, k + 1);
    HeaderBesideRing(c, end, free, k);
    HeaderBesideRing(c, end, free, k + 1);
    var m1 := mem[x := Tag(false)];
    var m2 := m1[x + POOL := POOL_ID];
    var m3 := m2[x + PREV := c[k].at];
    var m4 := m3[x + NEXT := c[k + 1].at];
    var m5 := m4[c[k + 1].at + PREV := x];
    AddressWriteKeepsRing(mem, s, x, 0, Tag(false));
    AddressWriteKeepsRing(m1, s, x, POOL, POOL_ID);
    AddressWriteKeepsRing(m2, s, x, PREV, c[k].at);
    AddressWriteKeepsRing(m3, s, x, NEXT, c[k + 1].at);
    AddressWriteKeepsRing(m4, s, c[k + 1].at, PREV, x);
    AddressWriteKeepsRing(m5, s, c[k].at, NEXT, x);
  }

  lemma InsertedData(mem: seq<int>, c: seq<Block>, end: nat, k: nat, x: nat)
    requires Tiled(c, HEADER, end) && k < |c| - 1 && end <= |mem|
    requires c[k].at + HEADER < x && x + HEADER < c[k + 1].at && c[k + 1].at + PREV < |mem|
    ensures KeepsData(mem, Inserted(mem, c, k, x), Live(Split(c, k, Block(x, false)), HEADER))
  {
    hide Live;
    var d := Split(c, k, Block(x, false));
    SplitTiled(c, HEADER, end, k, Block(x, false));
    assert d[k].at == c[k].at && d[k + 1].at == x && d[k + 2].at == c[k + 1].at;
    assert HeaderWord(d, HEADER, c[k].at + NEXT) && HeaderWord(d, HEADER, c[k + 1].at + PREV);
    assert HeaderWord(d, HEADER, x) && HeaderWord(d, HEADER, x + POOL) && HeaderWord(d, HEADER, x + NEXT) && HeaderWord(d, HEADER, x + PREV);
    HeadersOnly(mem, Inserted(mem, c, k, x), d, HEADER, end);
  }

  lemma RemovedPool(mem: seq<int>, c: seq<Block>, end: nat, free: seq<nat>, k: nat)
    requires Tiled(c, HEADER, end) && Listed(c, free) && AddressList(mem, c) && Ring(mem, RingOf(end, free))
    requires 0 < k < |free| + 1
    ensures var s := RingOf(end, free);
            && s[k] + PREV_FREE < |mem| && mem[s[k] + NEXT_FREE] == RingNext(s, k) && mem[s[k] + PREV_FREE] == s[k - 1]
            && s[k - 1] + PREV_FREE < |mem| && RingNext(s, k) + PREV_FREE < |mem|
            && AddressList(Removed(mem, s, k), c)
            && Ring(Removed(mem, s, k), RingOf(end, free[..k - 1] + free[k..]))
            && Listed(c, free[..k - 1] + free[k..])
            && KeepsData(mem, Removed(mem, s, k), Live(c, HEADER))
  {
    var s, rest := RingOf(end, free), free[..k - 1] + free[k..];
    var nx := if k + 1 < |s| then k + 1 else 0;
    assert RingAt(mem, s, k);
    assert RingAt(mem, s, k - 1) && RingAt(mem, s, nx);
    RingIsClear(c, end, free);
    RemovedRing(mem, s, k);
    assert RingOf(end, rest) == s[..k] + s[k + 1..];
    ItemBesideChain(c, end, free, nx);
    ItemBesideChain(c, end, free, k - 1);
    var mid := mem[RingNext(s, k) + PREV_FREE := s[k - 1]];
    FreeWriteKeepsAddress(mem, c, s[nx], PREV_FREE, s[k - 1]);
    FreeWriteKeepsAddress(mid, c, s[k - 1], NEXT_FREE, RingNext(s, k));
    forall x, j | x in Live(c, HEADER) && x.0 <= j < x.0 + x.1 && j < |mem| ensures Removed(mem, s, k)[j] == mem[j] {
      ItemOutside(c, end, free, nx, x);
      ItemOutside(c, end, free, k - 1, x);
    }
    DropListed(c, free, k - 1);
  }

  lemma DropListed(c: seq<Block>, free: seq<nat>, k: nat)
    requires Listed(c, free) && k < |free|
    ensures Listed(c, free[..k] + free[k + 1..])
  {
    var rest := free[..k] + free[k + 1..];
    forall at | at in rest ensures IsFree(c, at) {
      assert at in free;
    }
  }

  /** What a push of x needs to know about the ring. */
  lemma PushReady(mem: seq<int>, c: seq<Block>, end: nat, free: seq<nat>, x: nat)
    requires Tiled(c, HEADER, end) && Listed(c, free) && AddressList(mem, c) && Ring(mem, RingOf(end, free))
    requires IsFree(c, x) && x !in free
    ensures var s := RingOf(end, free);
            && x + PREV_FREE < |mem| && s[0] + PREV_FREE < |mem| && mem[s[0] + NEXT_FREE] == RingNext(s, 0)
            && RingNext(s, 0) + PREV_FREE < |mem| && x + HEADER <= s[0]
            && Listed(c, [x] + free)
            && RingOf(end, [x] + free) == [s[0], x] + s[1..]
            && RingClear(RingOf(end, free)) && RingClear(RingOf(end, [x] + free))
  {
    var s, i := RingOf(end, free), IndexOf(c, x);
    assert ItemAt(mem, c, i);
    Apart(c, end, i, |c| - 1);
    assert RingAt(mem, s, 0) && RingAt(mem, s, if |s| > 1 then 1 else 0);
    assert Listed(c, [x] + free);
    RingIsClear(c, end, free);
    RingIsClear(c, end, [x] + free);
  }

  lemma PushedRingPart(mem: seq<int>, c: seq<Block>, end: nat, free: seq<nat>, x: nat)
    requires Tiled(c, HEADER, end) && Listed(c, free) && AddressList(mem, c) && Ring(mem, RingOf(end, free))
    requires IsFree(c, x) && x !in free
    requires x + PREV_FREE < |mem| && end + HEADER + PREV_FREE < |mem| && RingNext(RingOf(end, free), 0) + PREV_FREE < |mem|
    ensures Ring(Pushed(mem, RingOf(end, free), x), RingOf(end, [x] + free))
  {
    var s, t := RingOf(end, free), RingOf(end, [x] + free);
    PushReady(mem, c, end, free, x);
    forall k | 0 <= k < |s| ensures Clear(s[k], x) {
      assert t[if k == 0 then 0 else k + 1] == s[k] && t[1] == x;
    }
    PushedRing(mem, s, x);
  }

  lemma PushedAddressPart(mem: seq<int>, c: seq<Block>, end: nat, free: seq<nat>, x: nat)
    requires Tiled(c, HEADER, end) && Listed(c, free) && AddressList(mem, c) && Listed(c, [x] + free)
    requires x + PREV_FREE < |mem| && end + HEADER + PREV_FREE < |mem| && RingNext(RingOf(end, free), 0) + PREV_FREE < |mem|
    ensures AddressList(Pushed(mem, RingOf(end, free), x), c)
  {
    var s := RingOf(end, free);
    ItemBesideChain(c, end, [x] + free, 1);
    ItemBesideChain(c, end, free, if |s| > 1 then 1 else 0);
    ItemBesideChain(c, end, free, 0);
    var m1 := mem[x + NEXT_FREE := RingNext(s, 0)];
    var m2 := m1[x + PREV_FREE := s[0]];
    var m3 := m2[RingNext(s, 0) + PREV_FREE := x];
    FreeWriteKeepsAddress(mem, c, x, NEXT_FREE, RingNext(s, 0));
    FreeWriteKeepsAddress(m1, c, x, PREV_FREE, s[0]);
    FreeWriteKeepsAddress(m2, c, RingNext(s, 0), PREV_FREE, x);
    FreeWriteKeepsAddress(m3, c, s[0], NEXT_FREE, x);
  }

  lemma PushedDataPart(mem: seq<int>, c: seq<Block>, end: nat, free: seq<nat>, x: nat)
    requires Tiled(c, HEADER, end) && Listed(c, free) && Listed(c, [x] + free)
    requires x + PREV_FREE < |mem| && end + HEADER + PREV_FREE < |mem| && RingNext(RingOf(end, free), 0) + PREV_FREE < |mem|
    ensures KeepsData(mem, Pushed(mem, RingOf(end, free), x), Live(c, HEADER))
  {
    var s := RingOf(end, free);
    forall y, j | y in Live(c, HEADER) && y.0 <= j < y.0 + y.1 && j < |mem| ensures Pushed(mem, s, x)[j] == mem[j] {
      ItemOutside(c, end, [x] + free, 1, y);
      ItemOutside(c, end, free, if |s| > 1 then 1 else 0, y);
      ItemOutside(c, end, free, 0, y);
    }
  }

  lemma InitLists(mem: seq<int>, poolSize: nat)
    requires 2 * HEADER < poolSize < ADDRESS_WORDS && |mem| == poolSize + HEADER
    requires mem[0] == Tag(false) && mem[POOL] == POOL_ID && mem[NEXT] == mem[PREV] == poolSize - HEADER
    requires mem[NEXT_FREE] == mem[PREV_FREE] == poolSize
    requires mem[poolSize + NEXT_FREE] == mem[poolSize + PREV_FREE] == 0
    requires var tail := poolSize - HEADER;
             mem[tail] == Tag(true) && mem[tail + POOL] == POOL_ID && mem[tail + NEXT] == mem[tail + PREV] == 0
    ensures AddressList(mem, Init(poolSize).chain) && Listed(Init(poolSize).chain, [0])
    ensures Ring(mem, RingOf(poolSize - HEADER, [0]))
  {
    var c, s := Init(poolSize).chain, RingOf(poolSize - HEADER, [0]);
    assert ItemAt(mem, c, 0) && ItemAt(mem, c, 1);
    assert s == [poolSize, 0];
    assert RingAt(mem, s, 0) && RingAt(mem, s, 1);
    assert IndexOf(c, 0) == 0;
  }
}
