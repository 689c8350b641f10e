/** The memheap allocator as a transformer of a block chain and a free list that must agree
    with it.  Offsets, sizes and statistics are in 4-byte words. */
module MemHeapModel {
  import opened Numbers
  import opened BlockChain
  import opened HeapWords
  import opened Sequences

  const HEADER: nat := 6        // RT_MEMHEAP_SIZE is 24 bytes
  const MINIALLOC: nat := 3     // RT_MEMHEAP_MINIALLOC is 12 bytes

  /** Sizes and addresses have 32 bits: sums of words wrap around here. */
  const ADDRESS_WORDS: nat := 0x4000_0000

  /** `free` lists the headers of the free blocks in the order of the free list. */
  datatype MemHeap = MemHeap(poolSize: nat, chain: seq<Block>, free: seq<nat>, available: int, maxUsed: int) {
    /** Offset of the tailer. */
    function End(): int { poolSize - HEADER }
  }

  datatype Outcome = Outcome(heap: MemHeap, ptr: int)

  function Request(bytes: nat): nat {
    if AlignWords(bytes) < MINIALLOC then MINIALLOC else AlignWords(bytes)
  }

  /** What is asked for is a multiple of 4 bytes, at least 12 and less than 4 bytes more than the
      caller needs; a size that wraps when it is rounded up becomes 12 bytes. */
  lemma RequestBytes(bytes: nat)
    requires bytes < 0x1_0000_0000
    ensures 8 < bytes <= 0xFFFF_FFFC ==> bytes <= 4 * Request(bytes) < bytes + 4
    ensures bytes <= 8 || bytes > 0xFFFF_FFFC ==> Request(bytes) == 3
  {
  }

  // ------------------------------------------------------------------ the free list

  /** The free list holds exactly the free blocks of the chain, each once. */
  ghost predicate FreeList(c: seq<Block>, free: seq<nat>) {
    && Distinct(free)
    && forall at: nat :: at in free <==> IsFree(c, at)
  }

  /** Words block `at` offers. */
  function RoomAt(c: seq<Block>, at: int): int {
    var i := IndexOf(c, at);
    if i < |c| - 1 then Room(c, HEADER, i) else 0
  }

  /** The search of rt_memheap_alloc: position in the free list of the first block that fits. */
  function FirstFit(c: seq<Block>, free: seq<nat>, size: nat): (k: nat)
    ensures k <= |free|
    ensures k < |free| ==> RoomAt(c, free[k]) >= size
    ensures forall j | 0 <= j < k :: RoomAt(c, free[j]) < size
  {
    if free == [] then 0
    else if RoomAt(c, free[0]) >= size then 0
    else 1 + FirstFit(c, free[1..], size)
  }

  // ------------------------------------------------------------------ operations

  function Init(poolSize: nat): MemHeap
    requires 2 * HEADER < poolSize < ADDRESS_WORDS
  {
    MemHeap(poolSize, [Block(0, false), Block(poolSize - HEADER, true)], [0],
            poolSize - 2 * HEADER, 2 * HEADER)
  }

  /** Record the new available size and the high-water mark. */
  function Charge(h: MemHeap, n: int): MemHeap {
    h.(available := h.available - n, maxUsed := Max(h.maxUsed, h.poolSize - (h.available - n)))
  }

  /** Hand out free block i. */
  function Take(h: MemHeap, i: nat, size: nat): MemHeap
    requires i < |h.chain| - 1
  {
    var c, at := h.chain, h.chain[i].at;
    if Room(c, HEADER, i) >= size + HEADER + MINIALLOC then
      var b := Block(at + size + HEADER, false);
      Charge(h, size + HEADER).(chain := Mark(Split(c, i, b), i, true), free := [b.at] + Without(h.free, at))
    else
      Charge(h, Room(c, HEADER, i)).(chain := Mark(c, i, true), free := Without(h.free, at))
  }

  /** Index of the block rt_memheap_alloc picks; |chain| - 1 when it returns RT_NULL. */
  function Choice(h: MemHeap, bytes: nat): (i: nat)
    requires h.chain != []
    ensures i < |h.chain|
  {
    var k := FirstFit(h.chain, h.free, Request(bytes));
    if Request(bytes) >= h.available || k == |h.free| then |h.chain| - 1
    else
      var i := IndexOf(h.chain, h.free[k]);
      if i < |h.chain| - 1 then i else |h.chain| - 1
  }

  function Alloc(h: MemHeap, bytes: nat): (m: Outcome)
    requires h.chain != []
    ensures m.heap.poolSize == h.poolSize
  {
    var i := Choice(h, bytes);
    if i == |h.chain| - 1 then Outcome(h, RT_NULL)
    else Outcome(Take(h, i, Request(bytes)), h.chain[i].at + HEADER)
  }

  /** Merge block i into its free left neighbour, which stays where it is in the free list. */
  function MergeLeft(h: MemHeap, i: nat): MemHeap
    requires i < |h.chain| - 1
  {
    if i > 0 && !h.chain[i - 1].used then
      h.(available := h.available + HEADER, chain := Absorb(h.chain, i))
    else h
  }

  /** Merge the free right neighbour into block i and take it off the free list. */
  function MergeRight(h: MemHeap, i: nat): MemHeap
    requires i < |h.chain| - 1
  {
    if !h.chain[i + 1].used then
      h.(available := h.available + HEADER, chain := Absorb(h.chain, i + 1), free := Without(h.free, h.chain[i + 1].at))
    else h
  }

  function Unmark(h: MemHeap, i: nat): MemHeap
    requires i < |h.chain| - 1
  {
    h.(chain := Mark(h.chain, i, false), available := h.available + Room(h.chain, HEADER, i))
  }

  function Free(h: MemHeap, i: nat): MemHeap
    requires i < |h.chain| - 1
  {
    var u := Unmark(h, i);
    if i > 0 && !h.chain[i - 1].used then
      MergeRight(MergeLeft(u, i), i - 1)
    else
      var m := MergeRight(u, i);
      m.(free := [h.chain[i].at] + m.free)
  }

  /** rt_memheap_realloc moving the border between block i and its free right neighbour:
      the old border header is unlinked and a new one built `words` words behind the pointer,
      in front of it when the address has wrapped around. */
  function Grow(h: MemHeap, i: nat, words: int): MemHeap
    requires i + 1 < |h.chain| - 1 && words + HEADER >= 0
  {
    var c, x: nat := h.chain, h.chain[i].at + HEADER + words;
    Charge(h, words - Room(c, HEADER, i)).(
      chain := Border(c, i, x),
      free := [x] + Without(h.free, c[i + 1].at))
  }

  /** Block i cut short: the tail is a free block, not yet on the free list. */
  function Cut(h: MemHeap, i: nat, words: nat): MemHeap
    requires i < |h.chain| - 1
  {
    var x := h.chain[i].at + HEADER + words;
    h.(chain := Split(h.chain, i, Block(x, false)), available := h.available + h.chain[i + 1].at - x - HEADER)
  }

  /** rt_memheap_realloc cutting the tail off block i. */
  function Shrink(h: MemHeap, i: nat, words: nat): MemHeap
    requires i < |h.chain| - 1
  {
    var m := MergeRight(Cut(h, i, words), i + 1);
    m.(free := [(h.chain[i].at + HEADER + words) as nat] + m.free)
  }

  // ------------------------------------------------------------------ pointers

  function Owner(h: MemHeap, p: int): (i: nat)
    ensures i <= |h.chain|
    ensures i < |h.chain| ==> h.chain[i].at == p - HEADER
  {
    IndexOf(h.chain, p - HEADER)
  }

  predicate Allocated(h: MemHeap, p: int) {
    var i := Owner(h, p);
    i < |h.chain| - 1 && h.chain[i].used
  }

  predicate Freeable(h: MemHeap, p: int) {
    p == RT_NULL || Allocated(h, p)
  }

  function FreePtr(h: MemHeap, p: int): MemHeap
    requires Freeable(h, p)
  {
    if p == RT_NULL then h else Free(h, Owner(h, p))
  }

  // ------------------------------------------------------------------ invariant

  ghost predicate Inv(h: MemHeap) {
    && 2 * HEADER < h.poolSize < ADDRESS_WORDS
    && Tiled(h.chain, HEADER, h.End())
    && Coalesced(h.chain)
    && FreeList(h.chain, h.free)
    && h.available == Total(h.chain, HEADER, false)
    && h.poolSize - h.available <= h.maxUsed
  }

  lemma InitInv(poolSize: nat)
    requires 2 * HEADER < poolSize < ADDRESS_WORDS
    ensures Inv(Init(poolSize)) && Live(Init(poolSize).chain, HEADER) == {}
    ensures Init(poolSize).available == poolSize - 12 && Init(poolSize).maxUsed == 12
  {
    var c := Init(poolSize).chain;
    TotalPair(c, HEADER, false);
    assert c[1..] == [c[1]];
    forall at: nat ensures at in Init(poolSize).free <==> IsFree(c, at) {
    }
  }

  lemma FreeListTake(c: seq<Block>, d: seq<Block>, free: seq<nat>, at: nat)
    requires FreeList(c, free)
    requires forall a: nat :: IsFree(d, a) <==> IsFree(c, a) && a != at
    ensures FreeList(d, Without(free, at))
  {
    WithoutMembers(free, at);
  }

  lemma FreeListAdd(c: seq<Block>, d: seq<Block>, free: seq<nat>, at: nat)
    requires FreeList(c, free) && !IsFree(c, at)
    requires forall a: nat :: IsFree(d, a) <==> IsFree(c, a) || a == at
    ensures FreeList(d, [at] + free)
  {
    assert at !in free;
  }

  // ------------------------------------------------------------------ rt_memheap_alloc

  lemma TakeWholeFree(c: seq<Block>, end: nat, i: nat, free: seq<nat>)
    requires Tiled(c, HEADER, end) && i < |c| - 1 && !c[i].used && FreeList(c, free)
    ensures FreeList(Mark(c, i, true), Without(free, c[i].at))
  {
    forall a: nat ensures IsFree(Mark(c, i, true), a) <==> IsFree(c, a) && a != c[i].at {
      MarkIsFree(c, HEADER, end, i, true, a);
    }
    FreeListTake(c, Mark(c, i, true), free, c[i].at);
  }

  lemma TakePartFree(c: seq<Block>, end: nat, i: nat, free: seq<nat>, b: Block)
    requires Tiled(c, HEADER, end) && i < |c| - 1 && !c[i].used && !b.used && FreeList(c, free)
    requires c[i].at + HEADER < b.at && b.at + HEADER < c[i + 1].at
    ensures FreeList(Mark(Split(c, i, b), i, true), [b.at] + Without(free, c[i].at))
  {
    hide IndexOf, Tiled, FreeList, Without;
    var d := Mark(c, i, true);
    TakeWholeFree(c, end, i, free);
    MarkTiled(c, HEADER, end, i, true);
    SplitAddFree(d, end, i, b, Without(free, c[i].at));
    SplitMark(c, i, b);
  }

  lemma SplitMark(c: seq<Block>, i: nat, b: Block)
    requires i < |c|
    ensures Split(Mark(c, i, true), i, b) == Mark(Split(c, i, b), i, true)
  {
  }

  lemma SplitAddFree(c: seq<Block>, end: nat, i: nat, b: Block, free: seq<nat>)
    requires Tiled(c, HEADER, end) && i < |c| - 1 && !b.used && FreeList(c, free)
    requires c[i].at + HEADER < b.at && b.at + HEADER < c[i + 1].at
    ensures FreeList(Split(c, i, b), [b.at] + free)
  {
    SplitTiled(c, HEADER, end, i, b);
    NoHeaderBetween(c, end, i, b.at);
    forall a: nat ensures IsFree(Split(c, i, b), a) <==> IsFree(c, a) || a == b.at {
      SplitIsFree(c, HEADER, end, i, b, a);
    }
    FreeListAdd(c, Split(c, i, b), free, b.at);
  }

  lemma NoHeaderBetween(c: seq<Block>, end: nat, i: nat, x: nat)
    requires Tiled(c, HEADER, end) && i < |c| - 1 && c[i].at < x < c[i + 1].at
    ensures IndexOf(c, x) == |c| && !IsFree(c, x)
  {
    assert forall j | 0 <= j < |c| :: c[j].at <= c[i].at || c[i + 1].at <= c[j].at;
  }

  lemma TakeTotal(c: seq<Block>, i: nat, size: nat)
    requires i < |c| - 1 && !c[i].used
    ensures Total(Mark(c, i, true), HEADER, false) == Total(c, HEADER, false) - Room(c, HEADER, i)
    ensures Total(Mark(Split(c, i, Block(c[i].at + size + HEADER, false)), i, true), HEADER, false)
         == Total(c, HEADER, false) - size - HEADER
  {
    MarkTotal(c, HEADER, i, true, false);
    SplitTotal(c, HEADER, i, Block(c[i].at + size + HEADER, false), false);
    MarkTotal(Split(c, i, Block(c[i].at + size + HEADER, false)), HEADER, i, true, false);
  }

  lemma TakeInv(h: MemHeap, i: nat, size: nat)
    requires Inv(h) && i < |h.chain| - 1 && !h.chain[i].used && Room(h.chain, HEADER, i) >= size >= MINIALLOC
    ensures Inv(Take(h, i, size))
  {
    hide Live, Total;
    var c, b := h.chain, Block(h.chain[i].at + size + HEADER, false);
    var d := Take(h, i, size);
    assert d.available == Total(d.chain, HEADER, false) by { TakeTotal(c, i, size); }
    assert Coalesced(d.chain) by { TakeCoalesced(c, i, b); }
    TakeTiled(h, i, size);
    if Room(c, HEADER, i) >= size + HEADER + MINIALLOC {
      TakePartFree(c, h.End(), i, h.free, b);
    } else {
      TakeWholeFree(c, h.End(), i, h.free);
    }
  }

  lemma TakeTiled(h: MemHeap, i: nat, size: nat)
    requires h.End() >= 0 && Tiled(h.chain, HEADER, h.End()) && i < |h.chain| - 1 && size >= MINIALLOC
    ensures Tiled(Take(h, i, size).chain, HEADER, h.End())
  {
    hide Live, Total, Coalesced, FreeList, IndexOf, Without;
    var c, b := h.chain, Block(h.chain[i].at + size + HEADER, false);
    if Room(c, HEADER, i) >= size + HEADER + MINIALLOC {
      SplitTiled(c, HEADER, h.End(), i, b);
      MarkTiled(Split(c, i, b), HEADER, h.End(), i, true);
    } else {
      MarkTiled(c, HEADER, h.End(), i, true);
    }
  }

  lemma TakeLive(h: MemHeap, i: nat, size: nat)
    requires Inv(h) && i < |h.chain| - 1 && !h.chain[i].used && Room(h.chain, HEADER, i) >= size >= MINIALLOC
    ensures var d := Take(h, i, size).chain;
            && i < |d| - 1 && d[i].at == h.chain[i].at && Room(d, HEADER, i) >= size
            && Live(d, HEADER) == Live(h.chain, HEADER) + {Area(d, HEADER, i)}
  {
    var c, b := h.chain, Block(h.chain[i].at + size + HEADER, false);
    if Room(c, HEADER, i) >= size + HEADER + MINIALLOC {
      SplitTiled(c, HEADER, h.End(), i, b);
      SplitFreeLive(c, HEADER, h.End(), i, b);
      MarkLive(Split(c, i, b), HEADER, h.End(), i, true);
      SameArea(Split(c, i, b), Take(h, i, size).chain, HEADER, i, i);
    } else {
      MarkLive(c, HEADER, h.End(), i, true);
      SameArea(c, Take(h, i, size).chain, HEADER, i, i);
    }
  }

  /** rt_memheap_alloc takes the first block of the free list that is large enough, and returns
      RT_NULL exactly when no free block is, or the request is not below available_size. */
  lemma AllocFirstFit(h: MemHeap, bytes: nat)
    requires Inv(h)
    ensures var i, size := Choice(h, bytes), Request(bytes);
            && (i < |h.chain| - 1 <==>
                size < h.available && exists j: nat :: j < |h.chain| - 1 && !h.chain[j].used && Room(h.chain, HEADER, j) >= size)
            && (i < |h.chain| - 1 ==>
                && !h.chain[i].used && Room(h.chain, HEADER, i) >= size
                && exists k: nat :: k < |h.free| && h.free[k] == h.chain[i].at &&
                                    forall m | 0 <= m < k :: RoomAt(h.chain, h.free[m]) < size)
  {
    var c, size := h.chain, Request(bytes);
    var k := FirstFit(c, h.free, size);
    if k < |h.free| {
      assert h.free[k] in h.free && IsFree(c, h.free[k]);
    } else {
      forall j: nat | j < |c| - 1 && !c[j].used ensures Room(c, HEADER, j) < size {
        FreeIsListed(h, j);
        var m :| 0 <= m < |h.free| && h.free[m] == c[j].at;
        assert RoomAt(c, h.free[m]) == Room(c, HEADER, j);
      }
    }
  }

  lemma FreeIsListed(h: MemHeap, j: nat)
    requires Inv(h) && j < |h.chain| - 1 && !h.chain[j].used
    ensures h.chain[j].at in h.free && IndexOf(h.chain, h.chain[j].at) == j
  {
    IndexOfHeader(h.chain, HEADER, h.End(), j);
    assert IsFree(h.chain, h.chain[j].at);
  }

  /** How much of a free block a request gets: the request, when what remains can be a block of
      its own, and else the whole block. */
  function LengthFrom(room: int, size: nat): (len: int)
    ensures room >= size ==> size <= len < size + HEADER + MINIALLOC && len <= room
    ensures room >= size ==> len == size || len == room
    ensures room > size + HEADER && len == room ==> room - size - HEADER < MINIALLOC
  {
    if room - HEADER - MINIALLOC >= size then size else room
  }

  /** What taking `len` of free block i leaves: the rest, if any, heads the free list with a header
      of its own, and the other free blocks keep their order. */
  ghost predicate TakenFrom(h: MemHeap, g: MemHeap, i: nat, len: int)
    requires i < |h.chain| - 1
  {
    var at, room := h.chain[i].at, Room(h.chain, HEADER, i);
    && g.available == h.available - (if len < room then len + HEADER else len)
    && (len < room ==> g.free != [] && g.free[0] as int == at + HEADER + len && g.free[1..] == Without(h.free, at))
    && (len >= room ==> g.free == Without(h.free, at))
  }

  lemma TakeExact(h: MemHeap, i: nat, size: nat)
    requires Inv(h) && i < |h.chain| - 1 && !h.chain[i].used && Room(h.chain, HEADER, i) >= size >= MINIALLOC
    ensures var g := Take(h, i, size);
            && i < |g.chain| - 1 && Room(g.chain, HEADER, i) == LengthFrom(Room(h.chain, HEADER, i), size)
            && TakenFrom(h, g, i, Room(g.chain, HEADER, i))
  {
    hide Live, Total, Tiled, FreeList, Coalesced;
    FreeIsListed(h, i);
    var c, at := h.chain, h.chain[i].at;
    if Room(c, HEADER, i) >= size + HEADER + MINIALLOC {
      var b := Block(at + size + HEADER, false);
      assert Split(c, i, b)[i] == c[i] && Split(c, i, b)[i + 1] == b;
    }
  }

  /** A successful rt_memheap_alloc adds exactly one area, the request cut from the front of the
      chosen block when the rest can be a block, and else that whole block. */
  lemma AllocServed(h: MemHeap, bytes: nat)
    requires Inv(h) && Choice(h, bytes) < |h.chain| - 1
    ensures var i, m := Choice(h, bytes), Alloc(h, bytes);
            && Inv(m.heap) && i < |m.heap.chain| - 1
            && Live(m.heap.chain, HEADER) == Live(h.chain, HEADER) + {Area(m.heap.chain, HEADER, i)}
            && Area(m.heap.chain, HEADER, i) == (m.ptr as nat, Room(m.heap.chain, HEADER, i))
            && Room(m.heap.chain, HEADER, i) >= Request(bytes)
            && (bytes <= 0xFFFF_FFFC ==> 4 * Room(m.heap.chain, HEADER, i) >= bytes)
            && !Allocated(h, m.ptr)
            && m.ptr == h.chain[i].at + HEADER && !h.chain[i].used
            && Room(m.heap.chain, HEADER, i) == LengthFrom(Room(h.chain, HEADER, i), Request(bytes))
            && TakenFrom(h, m.heap, i, Room(m.heap.chain, HEADER, i))
  {
    hide Live, Total, Tiled, FreeList, Coalesced, FirstFit, IndexOf, Without, AlignWords, Take, TakenFrom, LengthFrom;
    WordsHoldBytes(bytes);
    var i, size := Choice(h, bytes), Request(bytes);
    AllocFirstFit(h, bytes);
    TakeExact(h, i, size);
    TakeInv(h, i, size);
    TakeLive(h, i, size);
    FreeNotAllocated(h, i);
  }

  lemma FreeNotAllocated(h: MemHeap, i: nat)
    requires Inv(h) && i < |h.chain| - 1 && !h.chain[i].used
    ensures !Allocated(h, h.chain[i].at + HEADER)
  {
    IndexOfHeader(h.chain, HEADER, h.End(), i);
  }

  // ------------------------------------------------------------------ rt_memheap_free

  /** The free list lacks the free block `hole`, and is otherwise exact. */
  ghost predicate FreeListBut(c: seq<Block>, free: seq<nat>, hole: int) {
    && Distinct(free)
    && forall at: nat :: at in free <==> IsFree(c, at) && at != hole
  }

  /** Mid-operation state: block i is free and may have free neighbours. */
  ghost predicate Pending(h: MemHeap, i: nat, hole: int) {
    && h.End() >= 0 && Tiled(h.chain, HEADER, h.End())
    && i < |h.chain| - 1 && !h.chain[i].used && CoalescedBut(h.chain, i)
    && FreeListBut(h.chain, h.free, hole)
    && h.available == Total(h.chain, HEADER, false)
  }

  lemma UnmarkPending(h: MemHeap, i: nat)
    requires Inv(h) && i < |h.chain| - 1 && h.chain[i].used
    ensures Pending(Unmark(h, i), i, h.chain[i].at)
    ensures Live(Unmark(h, i).chain, HEADER) == Live(h.chain, HEADER) - {Area(h.chain, HEADER, i)}
  {
    var c := h.chain;
    MarkTiled(c, HEADER, h.End(), i, false);
    MarkTotal(c, HEADER, i, false, false);
    MarkLive(c, HEADER, h.End(), i, false);
    CoalescedRest(c, i);
    IsFreeAt(c, HEADER, h.End(), i);
    forall at: nat ensures at in h.free <==> IsFree(Mark(c, i, false), at) && at != c[i].at {
      MarkIsFree(c, HEADER, h.End(), i, false, at);
    }
  }

  lemma MergeLeftPending(h: MemHeap, i: nat)
    requires i < |h.chain| && Pending(h, i, h.chain[i].at) && i > 0 && !h.chain[i - 1].used
    ensures var g := MergeLeft(h, i);
            && Pending(g, i - 1, -1) && (i - 1 > 0 ==> g.chain[i - 2].used)
            && Live(g.chain, HEADER) == Live(h.chain, HEADER)
  {
    hide Live, Total;
    var c := h.chain;
    AbsorbTiled(c, HEADER, h.End(), i);
    AbsorbTotal(c, HEADER, i, false);
    AbsorbLive(c, HEADER, h.End(), i);
    AbsorbLeftCoalesced(c, i);
    forall at: nat ensures at in h.free <==> IsFree(Absorb(c, i), at) && at != -1 {
      AbsorbIsFree(c, HEADER, h.End(), i, at);
    }
  }

  lemma MergeRightPending(h: MemHeap, i: nat, hole: int)
    requires Pending(h, i, hole) && hole != h.chain[i + 1].at
    ensures var g := MergeRight(h, i);
            && Pending(g, i, hole) && g.chain[i + 1].used && g.chain[..i + 1] == h.chain[..i + 1]
            && Live(g.chain, HEADER) == Live(h.chain, HEADER)
  {
    hide Live, Total;
    var c := h.chain;
    if !c[i + 1].used {
      AbsorbTiled(c, HEADER, h.End(), i + 1);
      AbsorbTotal(c, HEADER, i + 1, false);
      AbsorbLive(c, HEADER, h.End(), i + 1);
      AbsorbRightCoalesced(c, i);
      AbsorbListed(c, h.End(), i + 1, h.free, hole);
    }
  }

  /** An absorbed block leaves the chain and the free list together. */
  lemma AbsorbListed(c: seq<Block>, end: nat, i: nat, free: seq<nat>, hole: int)
    requires Tiled(c, HEADER, end) && 0 < i < |c| - 1 && !c[i].used && FreeListBut(c, free, hole)
    ensures FreeListBut(Absorb(c, i), Without(free, c[i].at), hole)
  {
    var d, rest := Absorb(c, i), Without(free, c[i].at);
    WithoutMembers(free, c[i].at);
    forall at: nat ensures at in rest <==> IsFree(d, at) && at != hole {
      AbsorbIsFree(c, HEADER, end, i, at);
    }
  }

  /** Listing the pending block completes the operation. */
  lemma PendingDone(h: MemHeap, i: nat, hole: int)
    requires Pending(h, i, hole) && 2 * HEADER < h.poolSize < ADDRESS_WORDS && h.poolSize - h.available <= h.maxUsed
    requires h.chain[i + 1].used && (i > 0 ==> h.chain[i - 1].used)
    requires hole == -1 || hole == h.chain[i].at
    ensures Inv(if hole == -1 then h else h.(free := [h.chain[i].at] + h.free))
  {
    CoalescedWhole(h.chain, i);
    IsFreeAt(h.chain, HEADER, h.End(), i);
  }

  predicate LeftFree(h: MemHeap, i: nat)
    requires i < |h.chain|
  {
    i > 0 && !h.chain[i - 1].used
  }

  predicate RightFree(h: MemHeap, i: nat)
    requires i < |h.chain| - 1
  {
    !h.chain[i + 1].used
  }

  /** The free list without the right neighbour that the space of block i is joined with. */
  function KeptFree(h: MemHeap, i: nat): seq<nat>
    requires i < |h.chain| - 1
  {
    if RightFree(h, i) then Without(h.free, h.chain[i + 1].at) else h.free
  }

  lemma FreeExact(h: MemHeap, i: nat)
    requires i < |h.chain| - 1 && h.chain[i].used
    ensures var g := Free(h, i);
            && g.available == h.available + Room(h.chain, HEADER, i)
                              + (if LeftFree(h, i) then HEADER else 0) + (if RightFree(h, i) then HEADER else 0)
            && g.free == if LeftFree(h, i) then KeptFree(h, i) else [h.chain[i].at] + KeptFree(h, i)
  {
    hide Without;
    var c, u := h.chain, Unmark(h, i);
    assert u.chain[i + 1] == c[i + 1] && (i > 0 ==> u.chain[i - 1] == c[i - 1]);
    if i > 0 && !c[i - 1].used {
      assert MergeLeft(u, i).chain[i] == c[i + 1];
    }
  }

  /** rt_memheap_free keeps the invariant and gives back exactly the block's area.  Each merge saves
      a header; the freed space heads the free list unless it joins the block on its left, which
      keeps its place. */
  lemma FreeSpec(h: MemHeap, i: nat)
    requires Inv(h) && i < |h.chain| - 1 && h.chain[i].used
    ensures var g := Free(h, i);
            && Inv(g) && g.maxUsed == h.maxUsed && g.poolSize == h.poolSize
            && Live(g.chain, HEADER) == Live(h.chain, HEADER) - {Area(h.chain, HEADER, i)}
            && g.available == h.available + Room(h.chain, HEADER, i)
                              + (if LeftFree(h, i) then HEADER else 0) + (if RightFree(h, i) then HEADER else 0)
            && g.free == if LeftFree(h, i) then KeptFree(h, i) else [h.chain[i].at] + KeptFree(h, i)
  {
    FreeExact(h, i);
    var u := Unmark(h, i);
    UnmarkPending(h, i);
    if i > 0 && !h.chain[i - 1].used {
      FreeLeft(u, i);
    } else {
      FreeRight(u, i);
    }
  }

  lemma FreeLeft(u: MemHeap, i: nat)
    requires i < |u.chain| && Pending(u, i, u.chain[i].at) && i > 0 && !u.chain[i - 1].used
    requires 2 * HEADER < u.poolSize < ADDRESS_WORDS && u.poolSize - u.available <= u.maxUsed
    ensures var g := MergeRight(MergeLeft(u, i), i - 1);
            Inv(g) && Live(g.chain, HEADER) == Live(u.chain, HEADER)
  {
    var l := MergeLeft(u, i);
    MergeLeftPending(u, i);
    MergeRightPending(l, i - 1, -1);
    var g := MergeRight(l, i - 1);
    assert i - 1 > 0 ==> g.chain[i - 2] == g.chain[..i][i - 2] == l.chain[i - 2];
    PendingDone(g, i - 1, -1);
  }

  lemma FreeRight(u: MemHeap, i: nat)
    requires i < |u.chain| && Pending(u, i, u.chain[i].at) && (i > 0 ==> u.chain[i - 1].used)
    requires 2 * HEADER < u.poolSize < ADDRESS_WORDS && u.poolSize - u.available <= u.maxUsed
    ensures var g := MergeRight(u, i);
            Inv(g.(free := [u.chain[i].at] + g.free)) && Live(g.chain, HEADER) == Live(u.chain, HEADER)
  {
    assert u.chain[i].at < u.chain[i + 1].at;
    MergeRightPending(u, i, u.chain[i].at);
    var g := MergeRight(u, i);
    assert g.chain[i] == g.chain[..i + 1][i] == u.chain[i];
    assert i > 0 ==> g.chain[i - 1] == g.chain[..i + 1][i - 1] == u.chain[i - 1];
    PendingDone(g, i, u.chain[i].at);
  }

  // ------------------------------------------------------------------ rt_memheap_realloc

  predicate Growable(c: seq<Block>, i: nat, words: nat) {
    && i + 1 < |c| - 1 && c[i].used && !c[i + 1].used
    && Room(c, HEADER, i) < words
    && words + MINIALLOC < Room(c, HEADER, i) + Room(c, HEADER, i + 1)
  }

  /** The room test of rt_memheap_realloc as the code makes it, in 32-bit arithmetic. */
  predicate RoomTest(c: seq<Block>, i: nat, words: nat) {
    && i + 1 < |c| - 1 && c[i].used && !c[i + 1].used
    && Room(c, HEADER, i) < words
    && (words + MINIALLOC) % ADDRESS_WORDS < Room(c, HEADER, i) + Room(c, HEADER, i + 1)
  }

  /** How far behind the pointer the new header comes to lie: the sum of pointer and size wraps. */
  function Distance(words: nat): (d: int)
    requires words < ADDRESS_WORDS
    ensures d + MINIALLOC >= 0
  {
    if words + MINIALLOC < ADDRESS_WORDS then words else words - ADDRESS_WORDS
  }

  /** The requests whose size does not wrap in the room test, and those that do not come to it. */
  predicate Survives(h: MemHeap, p: int, bytes: nat) {
    || bytes == 0 || p == RT_NULL
    || AlignWords(bytes) + MINIALLOC < ADDRESS_WORDS
    || (Allocated(h, p) && h.chain[Owner(h, p) + 1].used)
  }

  /** The chain with the free header behind block i moved to x. */
  function Border(c: seq<Block>, i: nat, x: nat): seq<Block>
    requires i + 1 < |c|
  {
    Split(Absorb(c, i + 1), i, Block(x, false))
  }

  lemma BorderTiled(c: seq<Block>, end: nat, i: nat, x: nat)
    requires Tiled(c, HEADER, end) && i + 1 < |c| - 1 && c[i].at + HEADER < x && x + HEADER < c[i + 2].at
    ensures Tiled(Absorb(c, i + 1), HEADER, end) && Tiled(Border(c, i, x), HEADER, end)
    ensures |Absorb(c, i + 1)| == |c| - 1 && c[i + 1].at < c[i + 2].at
    ensures Absorb(c, i + 1)[i] == c[i] && Absorb(c, i + 1)[i + 1] == c[i + 2]
  {
    assert c[i + 1].at < c[i + 2].at;
    BorderSplit(c, end, i, x);
  }

  lemma BorderSplit(c: seq<Block>, end: nat, i: nat, x: nat)
    requires Tiled(c, HEADER, end) && i + 1 < |c| - 1 && c[i].at + HEADER < x && x + HEADER < c[i + 2].at
    ensures Tiled(Absorb(c, i + 1), HEADER, end) && Tiled(Border(c, i, x), HEADER, end)
  {
    hide Tiled;
    AbsorbTiled(c, HEADER, end, i + 1);
    SplitTiled(Absorb(c, i + 1), HEADER, end, i, Block(x, false));
  }

  lemma BorderTotal(c: seq<Block>, i: nat, x: nat)
    requires i + 1 < |c| - 1 && c[i].used && !c[i + 1].used
    ensures Total(Border(c, i, x), HEADER, false) == Total(c, HEADER, false) + c[i + 1].at - x
  {
    AbsorbTotal(c, HEADER, i + 1, false);
    SplitTotal(Absorb(c, i + 1), HEADER, i, Block(x, false), false);
  }

  lemma BorderFree(c: seq<Block>, end: nat, i: nat, x: nat, free: seq<nat>)
    requires Tiled(c, HEADER, end) && i + 1 < |c| - 1 && c[i].at + HEADER < x && x + HEADER < c[i + 2].at
    requires !c[i + 1].used && FreeList(c, free)
    ensures FreeList(Border(c, i, x), [x] + Without(free, c[i + 1].at))
  {
    BorderTiled(c, end, i, x);
    AbsorbListed(c, end, i + 1, free, -1);
    SplitAddFree(Absorb(c, i + 1), end, i, Block(x, false), Without(free, c[i + 1].at));
  }

  lemma BorderLive(c: seq<Block>, end: nat, i: nat, x: nat)
    requires Tiled(c, HEADER, end) && i + 1 < |c| - 1 && c[i].at + HEADER < x && x + HEADER < c[i + 2].at
    requires c[i].used && !c[i + 1].used
    ensures Live(Border(c, i, x), HEADER) == Live(c, HEADER) - {Area(c, HEADER, i)} + {(c[i].at + HEADER, x - c[i].at - HEADER)}
  {
    hide Live, Tiled, Absorb, Split;
    var d, live := Absorb(c, i + 1), Live(c, HEADER);
    var mid := (c[i].at + HEADER, c[i + 2].at - c[i].at - HEADER);
    BorderTiled(c, end, i, x);
    LiveStartsOnce(c, HEADER, end, i, mid);
    AbsorbUsedLive(c, HEADER, end, i + 1);
    SplitAfterAbsorb(d, end, i, x, live, Area(c, HEADER, i));
  }

  /** d is a chain whose area i is what an absorption made of area `was` in a heap with areas s. */
  lemma SplitAfterAbsorb(d: seq<Block>, end: nat, i: nat, x: nat, s: set<(nat, int)>, was: (nat, int))
    requires Tiled(d, HEADER, end) && i < |d| - 1 && d[i].used
    requires Area(d, HEADER, i) !in s && Live(d, HEADER) == s - {was} + {Area(d, HEADER, i)}
    ensures Live(Split(d, i, Block(x, false)), HEADER) == s - {was} + {(d[i].at + HEADER, x - d[i].at - HEADER)}
  {
    SplitLive(d, HEADER, end, i, Block(x, false));
    ReplaceTwice(s, was, Area(d, HEADER, i), (d[i].at + HEADER, x - d[i].at - HEADER));
  }

  lemma GrowInv(h: MemHeap, i: nat, words: nat)
    requires Inv(h) && Growable(h.chain, i, words)
    ensures Inv(Grow(h, i, words))
  {
    var c, x := h.chain, h.chain[i].at + HEADER + words;
    assert Tiled(Border(c, i, x), HEADER, h.End()) by { BorderTiled(c, h.End(), i, x); }
    assert Total(Border(c, i, x), HEADER, false) == Total(c, HEADER, false) + c[i + 1].at - x by { BorderTotal(c, i, x); }
    assert FreeList(Border(c, i, x), [x] + Without(h.free, c[i + 1].at)) by { BorderFree(c, h.End(), i, x, h.free); }
    assert Coalesced(Border(c, i, x)) by { GrowCoalesced(c, i, x); }
    var d, free := Border(c, i, x), [x as nat] + Without(h.free, c[i + 1].at);
    assert Grow(h, i, words) == Charge(h, words - Room(c, HEADER, i)).(chain := d, free := free);
    GrownInv(h, i, words, d, free);
  }

  lemma GrownInv(h: MemHeap, i: nat, words: nat, d: seq<Block>, free: seq<nat>)
    requires 2 * HEADER < h.poolSize < ADDRESS_WORDS && i < |h.chain| - 1 && words >= Room(h.chain, HEADER, i)
    requires Tiled(d, HEADER, h.End()) && Coalesced(d) && FreeList(d, free) && h.poolSize - h.available <= h.maxUsed
    requires h.available == Total(d, HEADER, false) + words - Room(h.chain, HEADER, i)
    ensures Inv(Charge(h, words - Room(h.chain, HEADER, i)).(chain := d, free := free))
  {
  }

  lemma GrowCoalesced(c: seq<Block>, i: nat, x: nat)
    requires Coalesced(c) && i + 1 < |c| - 1 && c[i].used && !c[i + 1].used
    ensures Coalesced(Border(c, i, x))
  {
    var d := Border(c, i, x);
    assert forall k | 0 <= k < |d| :: d[k].used == c[k].used;
    forall j, k | 0 <= j < k < |d| && k == j + 1 ensures d[j].used || d[k].used {
      assert c[j].used || c[k].used;
    }
  }

  lemma GrowLive(h: MemHeap, i: nat, words: nat)
    requires Inv(h) && Growable(h.chain, i, words)
    ensures Live(Grow(h, i, words).chain, HEADER) ==
            Live(h.chain, HEADER) - {Area(h.chain, HEADER, i)} + {(h.chain[i].at + HEADER, words)}
  {
    BorderLive(h.chain, h.End(), i, h.chain[i].at + HEADER + words);
  }

  lemma ReplaceTwice<T>(s: set<T>, x: T, y: T, z: T)
    requires y !in s
    ensures s - {x} + {y} - {y} + {z} == s - {x} + {z}
  {
  }

  predicate Cuttable(c: seq<Block>, i: nat, words: nat) {
    i < |c| - 1 && c[i].used && 0 < words && words + HEADER + MINIALLOC < Room(c, HEADER, i)
  }

  lemma CutPending(h: MemHeap, i: nat, words: nat)
    requires Inv(h) && Cuttable(h.chain, i, words)
    ensures Pending(Cut(h, i, words), i + 1, h.chain[i].at + HEADER + words)
    ensures var u := Cut(h, i, words);
            && u.chain[i + 1].at == h.chain[i].at + HEADER + words && u.chain[i].used && u.available >= h.available
            && u.poolSize == h.poolSize && u.maxUsed == h.maxUsed && u.free == h.free
  {
    hide Tiled, FreeListBut, CoalescedBut, Total;
    var c, b, g := h.chain, Block(h.chain[i].at + HEADER + words, false), Cut(h, i, words);
    CutChain(c, h.End(), i, b, h.free);
    assert g.chain == Split(c, i, b);
    assert g.available == Total(g.chain, HEADER, false);
  }

  lemma CutChain(c: seq<Block>, end: nat, i: nat, b: Block, free: seq<nat>)
    requires Tiled(c, HEADER, end) && i < |c| - 1 && c[i].used && !b.used && FreeList(c, free) && Coalesced(c)
    requires c[i].at + HEADER < b.at && b.at + HEADER < c[i + 1].at
    ensures var d := Split(c, i, b);
            && Tiled(d, HEADER, end) && CoalescedBut(d, i + 1) && FreeListBut(d, free, b.at)
            && Total(d, HEADER, false) == Total(c, HEADER, false) + c[i + 1].at - b.at - HEADER
            && i + 1 < |d| - 1 && d[i + 1] == b && d[i] == c[i]
  {
    assert Tiled(Split(c, i, b), HEADER, end) by { SplitTiled(c, HEADER, end, i, b); }
    assert CoalescedBut(Split(c, i, b), i + 1) by { SplitCoalesced(c, i, b); }
    assert FreeListBut(Split(c, i, b), free, b.at) by { SplitUnlisted(c, end, i, b, free); }
    SplitTotal(c, HEADER, i, b, false);
  }

  lemma CutLive(h: MemHeap, i: nat, words: nat)
    requires Inv(h) && Cuttable(h.chain, i, words)
    ensures Live(Cut(h, i, words).chain, HEADER) ==
            Live(h.chain, HEADER) - {Area(h.chain, HEADER, i)} + {(h.chain[i].at + HEADER, words)}
  {
    SplitLive(h.chain, HEADER, h.End(), i, Block(h.chain[i].at + HEADER + words, false));
  }

  lemma SplitUnlisted(c: seq<Block>, end: nat, i: nat, b: Block, free: seq<nat>)
    requires Tiled(c, HEADER, end) && i < |c| - 1 && !b.used && FreeList(c, free)
    requires c[i].at + HEADER < b.at && b.at + HEADER < c[i + 1].at
    ensures FreeListBut(Split(c, i, b), free, b.at)
  {
    var d := Split(c, i, b);
    SplitTiled(c, HEADER, end, i, b);
    NoHeaderBetween(c, end, i, b.at);
    forall at: nat ensures at in free <==> IsFree(d, at) && at != b.at {
      SplitIsFree(c, HEADER, end, i, b, at);
    }
  }

  lemma ShrinkExact(h: MemHeap, i: nat, words: nat)
    requires i < |h.chain| - 1
    ensures var g := Shrink(h, i, words);
            && g.available == h.available + Room(h.chain, HEADER, i) - words - (if RightFree(h, i) then 0 else HEADER)
            && g.free == [(h.chain[i].at + HEADER + words) as nat] + KeptFree(h, i)
  {
    hide Without;
    assert Cut(h, i, words).chain[i + 2] == h.chain[i + 1];
  }

  lemma ShrinkSpec(h: MemHeap, i: nat, words: nat)
    requires Inv(h) && Cuttable(h.chain, i, words)
    ensures var g := Shrink(h, i, words);
            && Inv(g) && g.maxUsed == h.maxUsed
            && Live(g.chain, HEADER) == Live(h.chain, HEADER) - {Area(h.chain, HEADER, i)} + {(h.chain[i].at + HEADER, words)}
            && g.available == h.available + Room(h.chain, HEADER, i) - words - (if RightFree(h, i) then 0 else HEADER)
            && g.free == [(h.chain[i].at + HEADER + words) as nat] + KeptFree(h, i)
  {
    ShrinkExact(h, i, words);
    hide Live, Tiled, FreeListBut, FreeList, CoalescedBut, Coalesced, Total, Cut;
    var u := Cut(h, i, words);
    CutPending(h, i, words);
    CutLive(h, i, words);
    ListTail(u, i + 1);
  }

  lemma ListTail(u: MemHeap, k: nat)
    requires 0 < k < |u.chain| && Pending(u, k, u.chain[k].at) && u.chain[k - 1].used
    requires 2 * HEADER < u.poolSize < ADDRESS_WORDS && u.poolSize - u.available <= u.maxUsed
    ensures var m := MergeRight(u, k);
            var g := m.(free := [u.chain[k].at] + m.free);
            Inv(g) && g.maxUsed == u.maxUsed && Live(g.chain, HEADER) == Live(u.chain, HEADER)
  {
    FreeRight(u, k);
  }

  lemma AllocKeepsArea(h: MemHeap, bytes: nat, p: int)
    requires Inv(h) && Allocated(h, p)
    ensures var g := Alloc(h, bytes).heap;
            && Inv(g) && Allocated(g, p)
            && Area(g.chain, HEADER, Owner(g, p)) == Area(h.chain, HEADER, Owner(h, p))
  {
    var g := Alloc(h, bytes).heap;
    if Choice(h, bytes) < |h.chain| - 1 {
      var x := Area(h.chain, HEADER, Owner(h, p));
      LiveIntro(h.chain, HEADER, Owner(h, p));
      AllocServed(h, bytes);
      assert x in Live(g.chain, HEADER);
      var i := LiveWitness(g.chain, HEADER, x);
      IndexOfHeader(g.chain, HEADER, g.End(), i);
    }
  }

  function Move(h: MemHeap, p: int, words: nat): Outcome
    requires Inv(h) && Allocated(h, p)
  {
    var m := Alloc(h, 4 * words);
    if m.ptr == RT_NULL then m
    else
      AllocKeepsArea(h, 4 * words, p);
      Outcome(FreePtr(m.heap, p), m.ptr)
  }

  /** rt_memheap_realloc on a live block. */
  function Resize(h: MemHeap, p: int, words: nat): Outcome
    requires Inv(h) && Allocated(h, p) && words < ADDRESS_WORDS
  {
    var i := Owner(h, p);
    var size := Room(h.chain, HEADER, i);
    if words > size then
      if RoomTest(h.chain, i, words) then Outcome(Grow(h, i, Distance(words)), p) else Move(h, p, words)
    else if words + HEADER + MINIALLOC >= size then Outcome(h, p)
    else Outcome(Shrink(h, i, words), p)
  }

  function Realloc(h: MemHeap, p: int, bytes: nat): Outcome
    requires Inv(h) && Freeable(h, p)
  {
    if bytes == 0 then Outcome(FreePtr(h, p), RT_NULL)
    else if p == RT_NULL then Alloc(h, 4 * Request(bytes))
    else Resize(h, p, Request(bytes))
  }

  lemma FreePtrSpec(h: MemHeap, p: int)
    requires Inv(h) && Freeable(h, p)
    ensures var g := FreePtr(h, p);
            && Inv(g)
            && (p == RT_NULL ==> g == h)
            && (p != RT_NULL ==>
                && Live(g.chain, HEADER) == Live(h.chain, HEADER) - {Area(h.chain, HEADER, Owner(h, p))}
                && g.available >= h.available + Room(h.chain, HEADER, Owner(h, p)))
  {
    if p != RT_NULL {
      FreeSpec(h, Owner(h, p));
    }
  }

  lemma RequestAgain(bytes: nat)
    ensures Request(4 * Request(bytes)) == Request(bytes)
  {
  }

  /** Where nothing wraps, the test is whether the grown block and a smallest block fit. */
  lemma RoomTestExact(c: seq<Block>, i: nat, words: nat)
    requires words + MINIALLOC < ADDRESS_WORDS
    ensures RoomTest(c, i, words) <==> Growable(c, i, words)
  {
  }

  /** No allocated area is smaller than the smallest request. */
  ghost predicate Roomy(h: MemHeap) {
    forall x | x in Live(h.chain, HEADER) :: x.1 >= MINIALLOC
  }

  /** Where the sum wraps, the test passes whenever the right neighbour is free. */
  lemma RoomTestWrapped(h: MemHeap, i: nat, words: nat)
    requires Inv(h) && Roomy(h) && i < |h.chain| - 1 && h.chain[i].used && words < ADDRESS_WORDS <= words + MINIALLOC
    ensures Room(h.chain, HEADER, i) < words
    ensures RoomTest(h.chain, i, words) <==> !h.chain[i + 1].used
  {
    var c := h.chain;
    LiveIntro(c, HEADER, i);
    assert c[i].at + HEADER < c[i + 1].at <= h.End();
    if !c[i + 1].used { assert c[i + 1].at + HEADER < c[i + 2].at <= h.End(); }
  }

  /** It then builds the new header inside the block's own header, and no chain of that shape is
      well formed. */
  lemma WrappedGrow(h: MemHeap, i: nat, words: nat)
    requires Inv(h) && RoomTest(h.chain, i, words) && words < ADDRESS_WORDS <= words + MINIALLOC
    ensures var g := Grow(h, i, Distance(words));
            && i + 1 < |g.chain| && g.chain[i] == h.chain[i] && !g.chain[i + 1].used
            && g.chain[i].at < g.chain[i + 1].at < g.chain[i].at + HEADER
            && g.chain[i + 1].at in g.free
            && !Inv(g)
  {
    var g := Grow(h, i, Distance(words));
    assert g.chain[i + 1].at == h.chain[i].at + HEADER + (words - ADDRESS_WORDS);
    assert g.chain[i].at + HEADER >= g.chain[i + 1].at;
  }

  /** available_size and the high-water mark do not wrap even then. */
  lemma WrappedCounter(h: MemHeap, i: nat, words: nat)
    requires Inv(h) && i < |h.chain| - 1 && h.chain[i].used && words < ADDRESS_WORDS <= words + MINIALLOC
    ensures var n := words - Room(h.chain, HEADER, i);
            && (h.available - n) % ADDRESS_WORDS == h.available - n + ADDRESS_WORDS
            && h.available - n + ADDRESS_WORDS <= h.poolSize
  {
    FreeBesideBlock(h.chain, HEADER, i);
    NoNegativeTotal(h);
  }

  lemma NoNegativeTotal(h: MemHeap)
    requires Inv(h)
    ensures h.available >= 0
  {
    TotalNonNegative(h.chain, HEADER, false);
  }

  lemma {:induction false} FreeBesideBlock(c: seq<Block>, hdr: nat, i: nat)
    requires i < |c| - 1 && c[i].used
    requires forall j, k | 0 <= j < k < |c| :: c[j].at + hdr < c[k].at
    ensures Total(c, hdr, false) + Room(c, hdr, i) + hdr <= c[|c| - 1].at - c[0].at
  {
    if i > 0 {
      FreeBesideBlock(c[1..], hdr, i - 1);
    } else {
      FreeWithin(c[1..], hdr);
    }
  }

  lemma {:induction false} FreeWithin(c: seq<Block>, hdr: nat)
    requires c != [] && forall j, k | 0 <= j < k < |c| :: c[j].at + hdr < c[k].at
    ensures Total(c, hdr, false) <= c[|c| - 1].at - c[0].at
  {
    if |c| > 1 { FreeWithin(c[1..], hdr); }
  }

  /** The right neighbour is free and has the room for the larger size and a smallest block. */
  predicate NeighbourHolds(h: MemHeap, i: nat, words: nat) {
    i + 1 < |h.chain| - 1 && RightFree(h, i) && words + MINIALLOC < Room(h.chain, HEADER, i) + Room(h.chain, HEADER, i + 1)
  }

  /** p's area has `words` words now, and the free space behind it heads the free list. */
  ghost predicate ResizedInPlace(h: MemHeap, g: MemHeap, p: int, words: nat, gained: int)
    requires Allocated(h, p)
  {
    && p >= 0
    && Live(g.chain, HEADER) == Live(h.chain, HEADER) - {Area(h.chain, HEADER, Owner(h, p))} + {(p as nat, words as int)}
    && g.available == h.available + gained
    && g.free == [p as nat + words] + KeptFree(h, Owner(h, p))
  }

  /** Every request that survives keeps the invariant and replaces exactly p's area: by nothing for
      size 0; by a longer one in place, when the right neighbour is free and has the room; by its
      front part in place, when a block can be cut off; by nothing else when it is no larger and
      nothing can be cut off; and otherwise by another area, or not at all when no block serves. */
  lemma ReallocSpec(h: MemHeap, p: int, bytes: nat)
    requires Inv(h) && Allocated(h, p)
    ensures var r, words, i := Realloc(h, p, bytes), Request(bytes), Owner(h, p);
            var was, room := Area(h.chain, HEADER, i), Room(h.chain, HEADER, i);
            Survives(h, p, bytes) ==>
            && Inv(r.heap)
            && (bytes == 0 ==> r.ptr == RT_NULL && Live(r.heap.chain, HEADER) == Live(h.chain, HEADER) - {was})
            && (bytes != 0 && r.ptr == RT_NULL ==> r.heap == h)
            && (bytes != 0 && words <= room <= words + HEADER + MINIALLOC ==> r == Outcome(h, p))
            && (bytes != 0 && words + HEADER + MINIALLOC < room ==>
                  r.ptr == p && ResizedInPlace(h, r.heap, p, words, room - words - (if RightFree(h, i) then 0 else HEADER)))
            && (bytes != 0 && room < words && NeighbourHolds(h, i, words) ==>
                  r.ptr == p && ResizedInPlace(h, r.heap, p, words, room - words))
            && (bytes != 0 && room < words && !NeighbourHolds(h, i, words) ==>
                  r.ptr != p && (r.ptr == RT_NULL <==> !HasBlock(h, words)))
            && (r.ptr != RT_NULL ==>
                exists len :: words <= len <= words + HEADER + MINIALLOC && (bytes <= 0xFFFF_FFFC ==> 4 * len >= bytes)
                              && r.ptr >= HEADER
                              && Live(r.heap.chain, HEADER) == Live(h.chain, HEADER) - {was} + {(r.ptr, len)})
  {
    hide Live, Total, Tiled, FreeList, Coalesced, IndexOf, AlignWords, Without, Alloc, Shrink, FreePtr;
    WordsHoldBytes(bytes);
    NeighbourInside(h, p);
    var i, words := Owner(h, p), Request(bytes);
    var r, was := Realloc(h, p, bytes), Area(h.chain, HEADER, i);
    LiveIntro(h.chain, HEADER, i);
    if bytes == 0 {
      FreePtrSpec(h, p);
    } else if words > Room(h.chain, HEADER, i) {
      if Survives(h, p, bytes) {
        if RoomTest(h.chain, i, words) {
          RoomTestExact(h.chain, i, words);
          GrowInv(h, i, words);
          GrowLive(h, i, words);
          assert Live(r.heap.chain, HEADER) == Live(h.chain, HEADER) - {was} + {(p, words)};
        } else {
          RequestAgain(bytes);
          MoveSpec(h, p, words);
        }
      }
    } else if words + HEADER + MINIALLOC >= Room(h.chain, HEADER, i) {
      assert Live(h.chain, HEADER) == Live(h.chain, HEADER) - {was} + {(p, Room(h.chain, HEADER, i))};
    } else {
      ShrinkSpec(h, i, words);
      assert Live(r.heap.chain, HEADER) == Live(h.chain, HEADER) - {was} + {(p, words)};
    }
  }

  /** Without a pointer it allocates the rounded size, or does nothing for size 0. */
  lemma ReallocNull(h: MemHeap, bytes: nat)
    requires Inv(h)
    ensures var r := Realloc(h, RT_NULL, bytes);
            && Inv(r.heap)
            && (bytes == 0 ==> r == Outcome(h, RT_NULL))
            && (bytes != 0 ==> (r.ptr == RT_NULL <==> !HasBlock(h, Request(bytes))) && (r.ptr == RT_NULL ==> r.heap == h))
            && (r.ptr != RT_NULL ==> exists len :: Request(bytes) <= len < Request(bytes) + HEADER + MINIALLOC
                                          && Live(r.heap.chain, HEADER) == Live(h.chain, HEADER) + {(r.ptr, len)})
  {
    hide Live, Total, Tiled, FreeList, Coalesced, IndexOf, AlignWords, Without, Alloc, Inv;
    RequestAgain(bytes);
    AllocSpec(h, 4 * Request(bytes));
    AllocServes(h, 4 * Request(bytes));
  }

  lemma NeighbourInside(h: MemHeap, p: int)
    requires Inv(h) && Allocated(h, p)
    ensures p >= HEADER && !h.chain[Owner(h, p) + 1].used ==> Owner(h, p) + 1 < |h.chain| - 1
    ensures p >= HEADER
  {
  }

  /** rt_memheap_realloc keeps the pool sound exactly when the aligned size and a smallest block
      do not wrap around 32 bits, or the right neighbour is in use. */
  lemma ReallocSurvives(h: MemHeap, p: int, bytes: nat)
    requires Inv(h) && Roomy(h) && Freeable(h, p)
    ensures Inv(Realloc(h, p, bytes).heap) <==> Survives(h, p, bytes)
    ensures !Survives(h, p, bytes) ==> Realloc(h, p, bytes).ptr == p
  {
    hide Total, Tiled, FreeList, Coalesced, IndexOf, Inv, Grow;
    if p == RT_NULL {
      if bytes != 0 { AllocInv(h, 4 * Request(bytes)); }
    } else if Survives(h, p, bytes) {
      ReallocSpec(h, p, bytes);
    } else {
      RoomTestWrapped(h, Owner(h, p), Request(bytes));
      WrappedGrow(h, Owner(h, p), Request(bytes));
    }
  }

  const GIVEN := MemHeap(100, [Block(0, true), Block(56, false), Block(94, true)], [56], 32, 68)
  const GIVEN_BACK := MemHeap(100, [Block(0, true), Block(9, false), Block(94, true)], [9], 79, 68)
  const GIVEN_AGAIN := MemHeap(100, [Block(0, true), Block(9, true), Block(75, false), Block(94, true)], [75], 13, 87)

  /** What a block gives back when it shrinks can be had again: of a fresh pool of 100 words a first
      block takes 200 bytes; shrunk to 12 bytes it leaves room for 240 more. */
  lemma ShrinkGivesBack()
    ensures Inv(GIVEN) && Allocated(GIVEN, 6)
    ensures Alloc(Init(100), 200) == Outcome(GIVEN, 6)
    ensures Realloc(GIVEN, 6, 12) == Outcome(GIVEN_BACK, 6)
    ensures Alloc(GIVEN_BACK, 240) == Outcome(GIVEN_AGAIN, 15)
  {
    TakeFifty();
    InitInv(100);
    AllocInv(Init(100), 200);
    ShrinkToThree();
    TakeSixty();
    hide Alloc, Inv, Realloc;
  }

  lemma TakeFifty()
    ensures Alloc(Init(100), 200) == Outcome(GIVEN, 6)
  {
    var c := Init(100).chain;
    assert RoomAt(c, 0) == 88 && Request(200) == 50;
    assert FirstFit(c, [0], 50) == 0;
    assert Choice(Init(100), 200) == 0;
    assert Mark(Split(c, 0, Block(56, false)), 0, true) == GIVEN.chain;
    assert Without([0], 0) == [];
  }

  lemma TakeSixty()
    ensures Alloc(GIVEN_BACK, 240) == Outcome(GIVEN_AGAIN, 15)
  {
    var c := GIVEN_BACK.chain;
    assert IndexOf(c, 9) == 1;
    assert RoomAt(c, 9) == 79 && Request(240) == 60;
    assert FirstFit(c, [9], 60) == 0;
    assert Choice(GIVEN_BACK, 240) == 1;
    assert Mark(Split(c, 1, Block(75, false)), 1, true) == GIVEN_AGAIN.chain;
    assert Without([9], 9) == [];
  }

  lemma ShrinkToThree()
    requires Inv(GIVEN)
    ensures Allocated(GIVEN, 6) && Realloc(GIVEN, 6, 12) == Outcome(GIVEN_BACK, 6)
  {
    assert IndexOf(GIVEN.chain, 0) == 0;
    assert Owner(GIVEN, 6) == 0;
    assert Request(12) == 3;
    hide Inv, FreeList, Coalesced, Tiled, Total;
    assert Resize(GIVEN, 6, 3) == Outcome(Shrink(GIVEN, 0, 3), 6);
    assert Without([56], 56) == [];
    assert Shrink(GIVEN, 0, 3) == GIVEN_BACK;
  }

  /** A request that does not survive: a first block of ten words, asked to grow to almost 4 GB. */
  lemma HugeReallocBreaksPool()
    ensures var h := Alloc(Init(100), 40).heap;
            && Inv(h) && Allocated(h, 6) && !h.chain[1].used
            && Realloc(h, 6, 0xFFFF_FFF1).ptr == 6 && !Inv(Realloc(h, 6, 0xFFFF_FFF1).heap)
  {
    InitInv(100);
    AllocInv(Init(100), 40);
    TenOfHundred();
    assert AlignWords(0xFFFF_FFF1) == 0x3FFF_FFFD;
    assert Roomy(Alloc(Init(100), 40).heap) by { AllocRoomy(Init(100), 40); }
    hide Inv, Alloc;
    ReallocSurvives(Alloc(Init(100), 40).heap, 6, 0xFFFF_FFF1);
  }

  lemma AllocRoomy(h: MemHeap, bytes: nat)
    requires Inv(h) && Roomy(h)
    ensures Roomy(Alloc(h, bytes).heap)
  {
    if Choice(h, bytes) < |h.chain| - 1 { AllocServed(h, bytes); }
    hide Live;
  }

  lemma TenOfHundred()
    ensures var h := Alloc(Init(100), 40).heap;
            Allocated(h, 6) && h.chain == [Block(0, true), Block(16, false), Block(94, true)]
  {
    var c := Init(100).chain;
    assert RoomAt(c, 0) == 88 && Request(40) == 10;
    assert FirstFit(c, [0], 10) == 0;
    assert Choice(Init(100), 40) == 0;
    assert Mark(Split(c, 0, Block(16, false)), 0, true) == [Block(0, true), Block(16, false), Block(94, true)];
  }

  /** What rt_memheap_alloc needs: less than available_size in all, and one free block that fits. */
  ghost predicate HasBlock(h: MemHeap, size: nat) {
    size < h.available && exists j: nat :: j < |h.chain| - 1 && !h.chain[j].used && Room(h.chain, HEADER, j) >= size
  }

  lemma AllocServes(h: MemHeap, bytes: nat)
    requires Inv(h)
    ensures Alloc(h, bytes).ptr == RT_NULL <==> !HasBlock(h, Request(bytes))
  {
    AllocFirstFit(h, bytes);
  }

  lemma MoveSpec(h: MemHeap, p: int, words: nat)
    requires Inv(h) && Allocated(h, p) && Request(4 * words) == words
    ensures var r, was := Move(h, p, words), Area(h.chain, HEADER, Owner(h, p));
            && Inv(r.heap)
            && (r.ptr == RT_NULL ==> r.heap == h)
            && r.ptr != p
            && (r.ptr == RT_NULL <==> !HasBlock(h, words))
            && (r.ptr != RT_NULL ==>
                exists len :: words <= len < words + HEADER + MINIALLOC && r.ptr >= HEADER &&
                              Live(r.heap.chain, HEADER) == Live(h.chain, HEADER) - {was} + {(r.ptr, len)})
  {
    hide Live, Total, Tiled, FreeList, Coalesced, FirstFit, IndexOf, Alloc;
    var m := Alloc(h, 4 * words);
    AllocKeepsArea(h, 4 * words, p);
    AllocSpec(h, 4 * words);
    AllocServes(h, 4 * words);
    HeaderBelow(h, p);
    if m.ptr != RT_NULL {
      assert Inv(FreePtr(m.heap, p)) by { FreePtrSpec(m.heap, p); }
      MoveLive(h, p, words);
    }
  }

  lemma MoveLive(h: MemHeap, p: int, words: nat)
    requires Inv(h) && Allocated(h, p) && Request(4 * words) == words && Alloc(h, 4 * words).ptr != RT_NULL
    requires var m := Alloc(h, 4 * words).heap;
             Inv(m) && Allocated(m, p) && Area(m.chain, HEADER, Owner(m, p)) == Area(h.chain, HEADER, Owner(h, p))
    ensures var m, was := Alloc(h, 4 * words), Area(h.chain, HEADER, Owner(h, p));
            exists len :: words <= len < words + HEADER + MINIALLOC && m.ptr >= HEADER &&
                          Live(FreePtr(m.heap, p).chain, HEADER) == Live(h.chain, HEADER) - {was} + {(m.ptr, len)}
  {
    var m, was := Alloc(h, 4 * words), Area(h.chain, HEADER, Owner(h, p));
    AllocServed(h, 4 * words);
    var len := Room(m.heap.chain, HEADER, Choice(h, 4 * words));
    var now := Live(FreePtr(m.heap, p).chain, HEADER);
    assert now == Live(m.heap.chain, HEADER) - {was} by { FreePtrSpec(m.heap, p); }
    assert was.0 == p && p != m.ptr;
    AddThenRemove(Live(h.chain, HEADER), Live(m.heap.chain, HEADER), now, was, (m.ptr, len));
  }

  // ------------------------------------------------------------------ whole runs

  datatype Op = OpAlloc(bytes: nat) | OpFree(p: int) | OpRealloc(p: int, bytes: nat)

  /** The callers' obligations, and no realloc that breaks the pool. */
  predicate Enabled(h: MemHeap, op: Op) {
    match op
    case OpAlloc(_) => true
    case OpFree(p) => Freeable(h, p)
    case OpRealloc(p, bytes) => Freeable(h, p) && Survives(h, p, bytes)
  }

  function Apply(h: MemHeap, op: Op): MemHeap
    requires Inv(h) && Enabled(h, op)
  {
    match op
    case OpAlloc(bytes) => Alloc(h, bytes).heap
    case OpFree(p) => FreePtr(h, p)
    case OpRealloc(p, bytes) => Realloc(h, p, bytes).heap
  }

  lemma AllocInv(h: MemHeap, bytes: nat)
    requires Inv(h)
    ensures Inv(Alloc(h, bytes).heap)
  {
    if Choice(h, bytes) < |h.chain| - 1 {
      AllocServed(h, bytes);
    }
  }

  lemma ApplyInv(h: MemHeap, op: Op)
    requires Inv(h) && Enabled(h, op)
    ensures Inv(Apply(h, op))
  {
    match op
    case OpAlloc(bytes) => AllocInv(h, bytes);
    case OpFree(p) => FreePtrSpec(h, p);
    case OpRealloc(p, bytes) =>
      if p != RT_NULL {
        ReallocSpec(h, p, bytes);
      } else if bytes != 0 {
        AllocInv(h, 4 * Request(bytes));
      }
  }

  /** The pool after a run of enabled calls; any other call ends it. */
  function Run(h: MemHeap, ops: seq<Op>): (g: MemHeap)
    requires Inv(h)
    ensures Inv(g)
    decreases |ops|
  {
    if ops == [] || !Enabled(h, ops[0]) then h
    else
      ApplyInv(h, ops[0]);
      Run(Apply(h, ops[0]), ops[1..])
  }

  lemma ApplyRoomy(h: MemHeap, op: Op)
    requires Inv(h) && Roomy(h) && Enabled(h, op)
    ensures Roomy(Apply(h, op))
  {
    hide Live, Inv, FreePtr, Alloc, Resize;
    match op
    case OpAlloc(bytes) => AllocRoomy(h, bytes);
    case OpFree(p) => FreePtrSpec(h, p);
    case OpRealloc(p, bytes) =>
      if p == RT_NULL {
        if bytes != 0 { AllocRoomy(h, 4 * Request(bytes)); } else { FreePtrSpec(h, p); }
      } else {
        ReallocSpec(h, p, bytes);
      }
  }

  lemma ApplyPool(h: MemHeap, op: Op)
    requires Inv(h) && Enabled(h, op)
    ensures Apply(h, op).poolSize == h.poolSize
  {
    hide Inv, IndexOf, Without, Split, Absorb, Mark, FirstFit, Choice, Border, Tiled, Live, Total;
  }

  lemma {:induction false} RunPool(h: MemHeap, ops: seq<Op>)
    requires Inv(h)
    ensures Run(h, ops).poolSize == h.poolSize
    decreases |ops|
  {
    if ops != [] && Enabled(h, ops[0]) {
      ApplyInv(h, ops[0]);
      ApplyPool(h, ops[0]);
      hide Inv, Apply;
      RunPool(Apply(h, ops[0]), ops[1..]);
    }
  }

  lemma {:induction false} RunRoomy(h: MemHeap, ops: seq<Op>)
    requires Inv(h) && Roomy(h)
    ensures Roomy(Run(h, ops))
    decreases |ops|
  {
    if ops != [] && Enabled(h, ops[0]) {
      ApplyInv(h, ops[0]);
      ApplyRoomy(h, ops[0]);
      hide Roomy, Inv, Apply;
      RunRoomy(Apply(h, ops[0]), ops[1..]);
    }
  }

  /** The pool after a run from initialisation. */
  function FromInit(poolSize: nat, ops: seq<Op>): (g: MemHeap)
    requires 2 * HEADER < poolSize < ADDRESS_WORDS
    ensures Inv(g)
  {
    InitInv(poolSize);
    Run(Init(poolSize), ops)
  }

  /** After every run from initialisation: which rt_memheap_realloc keeps the pool sound. */
  lemma ReachableReallocSurvives(poolSize: nat, ops: seq<Op>, p: int, bytes: nat)
    requires 2 * HEADER < poolSize < ADDRESS_WORDS && Freeable(FromInit(poolSize, ops), p)
    ensures var h := FromInit(poolSize, ops);
            Inv(Realloc(h, p, bytes).heap) <==> Survives(h, p, bytes)
  {
    hide Inv;
    InitInv(poolSize);
    RunRoomy(Init(poolSize), ops);
    ReallocSurvives(Run(Init(poolSize), ops), p, bytes);
  }

  /** With nothing allocated, the pool is the initial one up to its high-water mark. */
  lemma NothingAllocatedIsInit(h: MemHeap)
    requires Inv(h) && Live(h.chain, HEADER) == {}
    ensures h == Init(h.poolSize).(maxUsed := h.maxUsed)
  {
    AllFreeIsOneBlock(h.chain, HEADER, h.End());
    TotalPair(h.chain, HEADER, false);
    assert IsFree(h.chain, 0);
    assert 0 in h.free;
    assert |h.free| > 1 ==> h.free[0] != h.free[1];
    forall k | 0 <= k < |h.free| ensures h.free[k] == 0 {
      assert h.free[k] in h.free;
      assert IsFree(h.chain, h.free[k]);
    }
  }

  /** Every run keeps both lists in agreement, and freeing everything recovers the pool. */
  lemma AnyRun(h: MemHeap, ops: seq<Op>)
    requires Inv(h)
    ensures var g := Run(h, ops);
            && Inv(g) && g.poolSize == h.poolSize
            && (Live(g.chain, HEADER) == {} ==> g == Init(h.poolSize).(maxUsed := g.maxUsed))
  {
    var g := Run(h, ops);
    RunPool(h, ops);
    if Live(g.chain, HEADER) == {} {
      NothingAllocatedIsInit(g);
    }
  }

  // ------------------------------------------------------------------ the high-water mark

  function UsedWords(h: MemHeap): int {
    h.poolSize - h.available
  }

  /** The most one call keeps occupied: a moving rt_memheap_realloc holds both blocks for a while. */
  function Peak(h: MemHeap, op: Op): int
    requires Inv(h) && Enabled(h, op)
  {
    match op
    case OpAlloc(bytes) => UsedWords(Alloc(h, bytes).heap)
    case OpFree(p) => UsedWords(h)
    case OpRealloc(p, bytes) =>
      var words := Request(bytes);
      if bytes == 0 then UsedWords(h)
      else if p != RT_NULL && RoomTest(h.chain, Owner(h, p), words) then UsedWords(Apply(h, op))
      else if p != RT_NULL && words <= Room(h.chain, HEADER, Owner(h, p)) then UsedWords(h)
      else UsedWords(Alloc(h, 4 * words).heap)
  }

  function RunPeak(h: MemHeap, ops: seq<Op>): int
    requires Inv(h)
    decreases |ops|
  {
    if ops == [] || !Enabled(h, ops[0]) then UsedWords(h)
    else
      ApplyInv(h, ops[0]);
      Max(Peak(h, ops[0]), RunPeak(Apply(h, ops[0]), ops[1..]))
  }

  lemma AllocMax(h: MemHeap, bytes: nat)
    requires Inv(h)
    ensures var g := Alloc(h, bytes).heap; g.maxUsed == Max(h.maxUsed, UsedWords(g))
  {
  }

  lemma FreePtrMax(h: MemHeap, p: int)
    requires Inv(h) && Freeable(h, p)
    ensures FreePtr(h, p).maxUsed == h.maxUsed
  {
    if p != RT_NULL { FreeSpec(h, Owner(h, p)); }
  }

  lemma ApplyMax(h: MemHeap, op: Op)
    requires Inv(h) && Enabled(h, op)
    ensures Apply(h, op).maxUsed == Max(h.maxUsed, Peak(h, op))
  {
    match op
    case OpAlloc(bytes) => AllocMax(h, bytes);
    case OpFree(p) => FreePtrMax(h, p);
    case OpRealloc(p, bytes) =>
      if bytes == 0 {
        FreePtrMax(h, p);
      } else if p == RT_NULL {
        AllocMax(h, 4 * Request(bytes));
      } else {
        ResizeMax(h, p, Request(bytes), bytes);
      }
  }

  lemma ResizeMax(h: MemHeap, p: int, words: nat, bytes: nat)
    requires Inv(h) && Allocated(h, p) && Survives(h, p, bytes) && bytes != 0 && words == Request(bytes)
    ensures Resize(h, p, words).heap.maxUsed == Max(h.maxUsed, Peak(h, OpRealloc(p, bytes)))
  {
    hide Tiled, Coalesced, FreeList, Total, IndexOf, Alloc, FreePtr, Shrink;
    var i := Owner(h, p);
    var size := Room(h.chain, HEADER, i);
    if words > size {
      if !RoomTest(h.chain, i, words) {
        AllocMax(h, 4 * words);
        AllocKeepsArea(h, 4 * words, p);
        FreePtrMax(Alloc(h, 4 * words).heap, p);
        FailedAlloc(h, 4 * words);
      }
    } else if words + HEADER + MINIALLOC < size {
      ShrinkSpec(h, i, words);
    }
  }

  lemma FailedAlloc(h: MemHeap, bytes: nat)
    requires h.chain != []
    ensures Alloc(h, bytes).ptr == RT_NULL ==> Alloc(h, bytes).heap == h
  {
  }

  /** max_used_size is the running maximum of the occupied size over the whole run. */
  lemma {:induction false} RunMax(h: MemHeap, ops: seq<Op>)
    requires Inv(h)
    ensures Run(h, ops).maxUsed == Max(h.maxUsed, RunPeak(h, ops))
    decreases |ops|
  {
    if ops != [] && Enabled(h, ops[0]) {
      ApplyInv(h, ops[0]);
      ApplyMax(h, ops[0]);
      hide Peak, Apply, Inv;
      RunMax(Apply(h, ops[0]), ops[1..]);
    }
  }

  // ------------------------------------------------------------------ other threads in between

  predicate Touches(op: Op, p: int) {
    match op
    case OpAlloc(_) => false
    case OpFree(q) => q == p
    case OpRealloc(q, _) => q == p
  }

  lemma HeaderBelow(h: MemHeap, p: int)
    requires Allocated(h, p)
    ensures p >= HEADER
  {
  }

  lemma AllocSpec(h: MemHeap, bytes: nat)
    requires Inv(h)
    ensures var m := Alloc(h, bytes);
            && Inv(m.heap)
            && (m.ptr == RT_NULL ==> m.heap == h)
            && (m.ptr != RT_NULL ==> m.ptr >= HEADER && !Allocated(h, m.ptr))
            && (m.ptr != RT_NULL ==> exists len :: Request(bytes) <= len < Request(bytes) + HEADER + MINIALLOC
                                          && h.available - len - HEADER <= m.heap.available <= h.available - len
                                          && Live(m.heap.chain, HEADER) == Live(h.chain, HEADER) + {(m.ptr, len)})
  {
    AllocInv(h, bytes);
    if Choice(h, bytes) < |h.chain| - 1 {
      AllocServed(h, bytes);
      AllocFirstFit(h, bytes);
      hide Live;
      var m := Alloc(h, bytes);
      assert Area(m.heap.chain, HEADER, Choice(h, bytes)) == (m.ptr as nat, Room(m.heap.chain, HEADER, Choice(h, bytes)));
    }
  }

  lemma StaysAllocated(h: MemHeap, g: MemHeap, p: int)
    requires Inv(h) && Inv(g) && Allocated(h, p)
    requires AreaAt(h.chain, HEADER, p) in Live(h.chain, HEADER) ==> AreaAt(h.chain, HEADER, p) in Live(g.chain, HEADER)
    ensures Allocated(g, p) && AreaAt(g.chain, HEADER, p) == AreaAt(h.chain, HEADER, p)
  {
    AreaStays(h.chain, g.chain, HEADER, g.End(), p);
  }

  /** A call on other pointers leaves p allocated, where it is and as large as it is. */
  lemma OthersKeepArea(h: MemHeap, op: Op, p: int)
    requires Inv(h) && Enabled(h, op) && Allocated(h, p) && !Touches(op, p)
    ensures Inv(Apply(h, op)) && Allocated(Apply(h, op), p) && AreaAt(Apply(h, op).chain, HEADER, p) == AreaAt(h.chain, HEADER, p)
  {
    hide Live, Inv, Alloc, FreePtr, Resize;
    ApplyInv(h, op);
    match op
    case OpAlloc(bytes) => AllocKeepsArea(h, bytes, p);
    case OpFree(q) => FreePtrSpec(h, q); StaysAllocated(h, Apply(h, op), p);
    case OpRealloc(q, bytes) =>
      if q == RT_NULL {
        FreePtrSpec(h, q);
        AllocKeepsArea(h, 4 * Request(bytes), p);
      } else {
        ReallocSpec(h, q, bytes);
        StaysAllocated(h, Apply(h, op), p);
      }
  }

  lemma {:induction false} RunKeepsArea(h: MemHeap, ops: seq<Op>, p: int)
    requires Inv(h) && Allocated(h, p) && forall op | op in ops :: !Touches(op, p)
    ensures Allocated(Run(h, ops), p) && AreaAt(Run(h, ops).chain, HEADER, p) == AreaAt(h.chain, HEADER, p)
    decreases |ops|
  {
    if ops != [] && Enabled(h, ops[0]) {
      assert ops[0] in ops;
      OthersKeepArea(h, ops[0], p);
      hide Inv, Apply, IndexOf;
      RunKeepsArea(Apply(h, ops[0]), ops[1..], p);
    }
  }

  /** The moving rt_memheap_realloc lets go of the lock before and after its copy.  Whatever other threads
      do to other pointers there, old and new block stay where they are until the old one is freed,
      and freeing it then gives back exactly its area. */
  lemma MoveAmongOthers(h: MemHeap, p: int, words: nat, before: seq<Op>, after: seq<Op>)
    requires Inv(h) && Allocated(h, p) && Alloc(h, 4 * words).ptr != RT_NULL
    requires forall op | op in before + after :: !Touches(op, p) && !Touches(op, Alloc(h, 4 * words).ptr)
    ensures Inv(Alloc(h, 4 * words).heap)
    ensures var m, r := Alloc(h, 4 * words).heap, Alloc(h, 4 * words).ptr;
            var b := Run(m, before);
            var g := Run(b, after);
            && Allocated(m, r) && Allocated(b, p) && Allocated(b, r) && Allocated(g, p) && Allocated(g, r) && r != p
            && AreaAt(b.chain, HEADER, p) == AreaAt(g.chain, HEADER, p) == AreaAt(h.chain, HEADER, p)
            && AreaAt(b.chain, HEADER, r) == AreaAt(g.chain, HEADER, r) == AreaAt(m.chain, HEADER, r)
            && Inv(FreePtr(g, p)) && Live(FreePtr(g, p).chain, HEADER) == Live(g.chain, HEADER) - {AreaAt(h.chain, HEADER, p)}
  {
    hide Live, Alloc, FreePtr, IndexOf, Run, Inv, Touches;
    AllocSpec(h, 4 * words);
    var m, r := Alloc(h, 4 * words).heap, Alloc(h, 4 * words).ptr;
    AllocKeepsArea(h, 4 * words, p);
    NewPointer(h, 4 * words);
    var b := Run(m, before);
    assert forall op | op in before :: op in before + after;
    assert forall op | op in after :: op in before + after;
    RunKeepsArea(m, before, p);
    RunKeepsArea(m, before, r);
    RunKeepsArea(b, after, p);
    RunKeepsArea(b, after, r);
    FreedArea(Run(b, after), p);
  }

  lemma NewPointer(h: MemHeap, bytes: nat)
    requires Inv(h) && Alloc(h, bytes).ptr != RT_NULL
    ensures Allocated(Alloc(h, bytes).heap, Alloc(h, bytes).ptr) && !Allocated(h, Alloc(h, bytes).ptr)
  {
    AllocSpec(h, bytes);
    var m, r := Alloc(h, bytes).heap, Alloc(h, bytes).ptr;
    hide Alloc;
    var len :| Live(m.chain, HEADER) == Live(h.chain, HEADER) + {(r, len)};
    hide Live, IndexOf;
    AreaIsInUse(m.chain, HEADER, m.End(), (r, len));
  }

  lemma FreedArea(h: MemHeap, p: int)
    requires Inv(h) && Allocated(h, p)
    ensures Inv(FreePtr(h, p)) && Live(FreePtr(h, p).chain, HEADER) == Live(h.chain, HEADER) - {AreaAt(h.chain, HEADER, p)}
  {
    hide Live;
    FreePtrSpec(h, p);
    assert p != RT_NULL by { HeaderBelow(h, p); }
  }
}
