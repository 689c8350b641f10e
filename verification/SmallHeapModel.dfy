/** The small-memory heap of the kernel as a transformer of block chains.

    Offsets, sizes and statistics are in 4-byte words.  The functions follow the branches of
    the allocator; the class in SmallHeap.dfy is proved to compute exactly these functions
    on the real header words. */
module SmallHeapModel {
  import opened Numbers
  import opened BlockChain
  import opened HeapWords

  const HEADER: nat := 3        // SIZEOF_STRUCT_MEM is 12 bytes
  const MIN_SIZE: nat := 3      // MIN_SIZE_ALIGNED is 12 bytes

  datatype Heap = Heap(memSize: nat, chain: seq<Block>, lfree: nat, usedMem: int, maxMem: int) {
    function End(): nat { memSize + HEADER }
  }

  /** A heap and the user pointer (or RT_NULL) an operation returns. */
  datatype Outcome = Outcome(heap: Heap, ptr: int)

  // ------------------------------------------------------------------ operations

  predicate Fits(c: seq<Block>, i: nat, size: nat)
    requires i < |c| - 1
  {
    !c[i].used && Room(c, HEADER, i) >= size
  }

  /** The search of rt_malloc from block i; |c| - 1 (the sentinel) when it finds nothing. */
  function FirstFit(c: seq<Block>, i: nat, size: nat, memSize: nat): (r: nat)
    requires i < |c|
    ensures i <= r < |c|
    decreases |c| - i
  {
    if i == |c| - 1 || c[i].at >= memSize - size then |c| - 1
    else if Fits(c, i, size) then i
    else FirstFit(c, i + 1, size, memSize)
  }

  /** The lfree advance: the first free block from i on, or the sentinel. */
  function FirstFree(c: seq<Block>, i: nat): (r: nat)
    requires i < |c|
    ensures i <= r < |c|
    ensures r == |c| - 1 || !c[r].used
    ensures forall k | i <= k < r :: c[k].used
    decreases |c| - i
  {
    if i == |c| - 1 || !c[i].used then i else FirstFree(c, i + 1)
  }

  /** Hand out free block i, cutting off the remainder when it can hold a block of its own. */
  function Carve(c: seq<Block>, i: nat, size: nat): seq<Block>
    requires i < |c| - 1
  {
    if Room(c, HEADER, i) >= size + HEADER + MIN_SIZE then
      Mark(Split(c, i, Block(c[i].at + HEADER + size, false)), i, true)
    else
      Mark(c, i, true)
  }

  function Grab(h: Heap, i: nat, size: nat): Heap
    requires i < |h.chain| - 1
  {
    var c := Carve(h.chain, i, size);
    var used := h.usedMem + c[i + 1].at - c[i].at;
    Heap(h.memSize, c,
         if c[i].at == h.lfree then c[FirstFree(c, i)].at else h.lfree,
         used, Max(h.maxMem, used))
  }

  /** The payload rt_malloc looks for: aligned, and never below MIN_SIZE_ALIGNED. */
  function Request(bytes: nat): nat {
    if AlignWords(bytes) < MIN_SIZE then MIN_SIZE else AlignWords(bytes)
  }

  /** Index of the block rt_malloc picks; |chain| - 1 when it returns RT_NULL. */
  function Choice(h: Heap, bytes: nat): (i: nat)
    requires h.chain != []
    ensures i < |h.chain|
  {
    var start := IndexOf(h.chain, h.lfree);
    if bytes == 0 || AlignWords(bytes) > h.memSize || start == |h.chain| then |h.chain| - 1
    else FirstFit(h.chain, start, Request(bytes), h.memSize)
  }

  function Malloc(h: Heap, bytes: nat): (m: Outcome)
    requires h.chain != []
    ensures m.heap.memSize == h.memSize
  {
    var i := Choice(h, bytes);
    if i == |h.chain| - 1 then Outcome(h, RT_NULL)
    else Outcome(Grab(h, i, Request(bytes)), h.chain[i].at + HEADER)
  }

  /** plug_holes on block i: absorb a free right neighbour, then be absorbed by a free left one. */
  function PlugForward(h: Heap, i: nat): Heap
    requires i < |h.chain| - 1
  {
    var c := h.chain;
    if i + 1 < |c| - 1 && !c[i + 1].used then
      h.(chain := Absorb(c, i + 1), lfree := if h.lfree == c[i + 1].at then c[i].at else h.lfree)
    else h
  }

  function PlugBackward(h: Heap, i: nat): Heap
    requires i < |h.chain| - 1
  {
    var c := h.chain;
    if i > 0 && !c[i - 1].used then
      h.(chain := Absorb(c, i), lfree := if h.lfree == c[i].at then c[i - 1].at else h.lfree)
    else h
  }

  function PlugHoles(h: Heap, i: nat): Heap
    requires i < |h.chain| - 1
  {
    PlugBackward(PlugForward(h, i), i)
  }

  /** The state rt_free hands to plug_holes. */
  function Unmark(h: Heap, i: nat): Heap
    requires i < |h.chain| - 1
  {
    var at := h.chain[i].at;
    Heap(h.memSize, Mark(h.chain, i, false), if at < h.lfree then at else h.lfree,
         h.usedMem - (h.chain[i + 1].at - at), h.maxMem)
  }

  function Free(h: Heap, i: nat): (g: Heap)
    requires i < |h.chain| - 1
    ensures g.memSize == h.memSize
  {
    PlugHoles(Unmark(h, i), i)
  }

  /** The state rt_realloc hands to plug_holes when it cuts the tail off block i. */
  function CutTail(h: Heap, i: nat, words: nat): Heap
    requires i < |h.chain| - 1
  {
    var c := h.chain;
    h.(chain := Split(c, i, Block(c[i].at + HEADER + words, false)),
       usedMem := h.usedMem - (Room(c, HEADER, i) - words))
  }

  function Shrink(h: Heap, i: nat, words: nat): (g: Heap)
    requires i < |h.chain| - 1
    ensures g.memSize == h.memSize
  {
    PlugHoles(CutTail(h, i, words), i + 1)
  }

  /** Index of the block a user pointer belongs to. */
  function Owner(h: Heap, p: int): (i: nat)
    ensures i <= |h.chain|
    ensures i < |h.chain| ==> h.chain[i].at == p - HEADER
  {
    IndexOf(h.chain, p - HEADER)
  }

  /** p is a pointer rt_malloc handed out and rt_free has not taken back. */
  predicate Allocated(h: Heap, p: int) {
    var i := Owner(h, p);
    i < |h.chain| - 1 && h.chain[i].used
  }

  /** What rt_free asks of its argument. */
  predicate Freeable(h: Heap, p: int) {
    p == RT_NULL || Allocated(h, p)
  }

  function FreePtr(h: Heap, p: int): Heap
    requires Freeable(h, p)
  {
    if p == RT_NULL then h else Free(h, Owner(h, p))
  }

  function Init(memSize: nat): Heap {
    Heap(memSize, [Block(0, false), Block(memSize + HEADER, true)], 0, 0, 0)
  }

  /** The words rt_system_heap_init can hand out of the bytes from `begin` to `end`, its ends
      rounded inwards and two headers kept back; -1 for a region it refuses. */
  function RegionWords(begin: nat, end: nat): int {
    var b, e := AlignWords(begin), end / 4;
    if e > 2 * HEADER && e - 2 * HEADER >= b then e - b - 2 * HEADER else -1
  }

  /** The heap with its two headers lies inside the region, and wastes less than two words of it,
      exactly when rounding the beginning up does not wrap around 32 bits. */
  lemma RegionInside(begin: nat, end: nat)
    requires begin < 0x1_0000_0000 && end < 0x1_0000_0000 && RegionWords(begin, end) >= 0
    ensures begin <= 4 * AlignWords(begin) <==> begin <= 0xFFFF_FFFC
    ensures 4 * AlignWords(begin) + 4 * (RegionWords(begin, end) + 2 * HEADER) <= end
    ensures begin <= 0xFFFF_FFFC ==> 4 * (RegionWords(begin, end) + 2 * HEADER) + 8 > end - begin
  {
  }

  /** A region is refused when fewer than 24 bytes, the two headers, lie between its rounded ends,
      or when its end is no further up than that. */
  lemma RegionRefused(begin: nat, end: nat)
    requires begin <= 0xFFFF_FFFC && end < 0x1_0000_0000
    ensures RegionWords(begin, end) < 0 <==> end < 28 || end - end % 4 < begin + (4 - begin % 4) % 4 + 24
  {
  }

  /** What is asked for is a multiple of 4 bytes, at least 12 and less than 4 bytes more than the
      caller needs; a size that wraps when it is rounded up becomes 12 bytes. */
  lemma RequestBytes(bytes: nat)
    requires bytes < 0x1_0000_0000
    ensures 8 < bytes <= 0xFFFF_FFFC ==> bytes <= 4 * Request(bytes) < bytes + 4
    ensures bytes <= 8 || bytes > 0xFFFF_FFFC ==> Request(bytes) == 3
  {
  }

  // ------------------------------------------------------------------ invariant

  /** lfree names a free block or the sentinel. */
  ghost predicate FreeOrEnd(c: seq<Block>, at: int) {
    exists i :: 0 <= i < |c| && c[i].at == at && (c[i].used ==> i == |c| - 1)
  }

  /** No block in front of lfree is free. */
  ghost predicate LowestFree(h: Heap) {
    forall i | 0 <= i < |h.chain| - 1 && h.chain[i].at < h.lfree :: h.chain[i].used
  }

  ghost predicate Shape(h: Heap) {
    && h.memSize >= MIN_SIZE
    && Tiled(h.chain, HEADER, h.End())
    && FreeOrEnd(h.chain, h.lfree)
    && h.usedMem == Total(h.chain, 0, true)
    && h.usedMem <= h.maxMem
  }

  ghost predicate Inv(h: Heap) {
    && Shape(h)
    && Coalesced(h.chain)
    && (Live(h.chain, HEADER) == {} ==> h.lfree == 0)
  }

  // ------------------------------------------------------------------ rt_malloc

  lemma {:induction false} FirstFitScan(c: seq<Block>, end: nat, i: nat, size: nat, memSize: nat)
    requires Tiled(c, HEADER, end) && i < |c|
    ensures var r := FirstFit(c, i, size, memSize);
            && (r < |c| - 1 ==> c[r].at < memSize - size && Fits(c, r, size))
            && forall j | i <= j < |c| - 1 && c[j].at < memSize - size && Fits(c, j, size) :: r <= j
    decreases |c| - i
  {
    if i < |c| - 1 && c[i].at < memSize - size && !Fits(c, i, size) {
      FirstFitScan(c, end, i + 1, size, memSize);
    }
  }

  /** Block i could serve a request of `size` words.  The search bound makes rt_malloc blind to
      an exact fit in the last block. */
  ghost predicate Serves(h: Heap, i: nat, size: nat) {
    && i < |h.chain| - 1
    && h.lfree <= h.chain[i].at
    && Fits(h.chain, i, size)
    && !(i == |h.chain| - 2 && Room(h.chain, HEADER, i) == size)
  }

  lemma ServesIsGuard(h: Heap, i: nat, size: nat)
    requires Tiled(h.chain, HEADER, h.End()) && i < |h.chain| - 1
    requires Fits(h.chain, i, size)
    ensures h.chain[i].at < h.memSize - size <==> !(i == |h.chain| - 2 && Room(h.chain, HEADER, i) == size)
  {
    if i < |h.chain| - 2 {
      assert h.chain[i + 1].at + HEADER < h.chain[|h.chain| - 1].at;
    }
  }

  /** rt_malloc is first-fit and complete from lfree upwards: it takes the lowest block that
      serves, and returns RT_NULL exactly when there is none. */
  lemma MallocFirstFit(h: Heap, bytes: nat)
    requires Inv(h)
    ensures var i := Choice(h, bytes);
            && (i < |h.chain| - 1 <==>
                bytes != 0 && AlignWords(bytes) <= h.memSize && exists j: nat :: Serves(h, j, Request(bytes)))
            && (i < |h.chain| - 1 ==>
                Serves(h, i, Request(bytes)) && forall j: nat | Serves(h, j, Request(bytes)) :: i <= j)
  {
    hide Live, Total, FirstFit, IndexOf, Coalesced;
    var c, size := h.chain, Request(bytes);
    var s :| 0 <= s < |c| && c[s].at == h.lfree && (c[s].used ==> s == |c| - 1);
    IndexOfHeader(c, HEADER, h.End(), s);
    FirstFitScan(c, h.End(), s, size, h.memSize);
    var r := FirstFit(c, s, size, h.memSize);
    forall j: nat | Serves(h, j, size) ensures r <= j && r < |c| - 1 {
      ServesIsGuard(h, j, size);
    }
    if r < |c| - 1 {
      ServesIsGuard(h, r, size);
      assert s < r ==> c[s].at + HEADER < c[r].at;
      assert Serves(h, r, size);
    }
  }

  lemma CarveTiled(c: seq<Block>, end: nat, i: nat, size: nat)
    requires Tiled(c, HEADER, end) && i < |c| - 1 && size >= MIN_SIZE && Fits(c, i, size)
    ensures var d := Carve(c, i, size);
            && Tiled(d, HEADER, end)
            && |c| <= |d| && d[i].at == c[i].at
            && Room(d, HEADER, i) >= size
  {
    if Room(c, HEADER, i) >= size + HEADER + MIN_SIZE {
      var b := Block(c[i].at + HEADER + size, false);
      SplitTiled(c, HEADER, end, i, b);
      MarkTiled(Split(c, i, b), HEADER, end, i, true);
    } else {
      MarkTiled(c, HEADER, end, i, true);
    }
  }

  lemma CarveTotal(c: seq<Block>, i: nat, size: nat)
    requires i < |c| - 1 && !c[i].used
    ensures var d := Carve(c, i, size); Total(d, 0, true) == Total(c, 0, true) + d[i + 1].at - d[i].at
  {
    if Room(c, HEADER, i) >= size + HEADER + MIN_SIZE {
      var b := Block(c[i].at + HEADER + size, false);
      SplitTotal(c, 0, i, b, true);
      MarkTotal(Split(c, i, b), 0, i, true, true);
    } else {
      MarkTotal(c, 0, i, true, true);
    }
  }

  lemma CarveLive(c: seq<Block>, end: nat, i: nat, size: nat)
    requires Tiled(c, HEADER, end) && i < |c| - 1 && size >= MIN_SIZE && Fits(c, i, size)
    ensures var d := Carve(c, i, size);
            Live(d, HEADER) == Live(c, HEADER) + {Area(d, HEADER, i)}
  {
    if Room(c, HEADER, i) >= size + HEADER + MIN_SIZE {
      var b := Block(c[i].at + HEADER + size, false);
      SplitTiled(c, HEADER, end, i, b);
      SplitLive(c, HEADER, end, i, b);
      MarkLive(Split(c, i, b), HEADER, end, i, true);
      SameArea(Split(c, i, b), Carve(c, i, size), HEADER, i, i);
    } else {
      MarkLive(c, HEADER, end, i, true);
      SameArea(c, Carve(c, i, size), HEADER, i, i);
    }
  }

  lemma GrabCoalesced(h: Heap, i: nat, size: nat)
    requires Inv(h) && Serves(h, i, size)
    ensures Coalesced(Grab(h, i, size).chain)
  {
    TakeCoalesced(h.chain, i, Block(h.chain[i].at + HEADER + size, false));
  }

  lemma GrabLfree(h: Heap, i: nat, size: nat)
    requires Inv(h) && Serves(h, i, size)
    ensures FreeOrEnd(Grab(h, i, size).chain, Grab(h, i, size).lfree)
  {
    var c, g := h.chain, Grab(h, i, size);
    if c[i].at != h.lfree {
      var s :| 0 <= s < |c| && c[s].at == h.lfree && (c[s].used ==> s == |c| - 1);
      assert g.chain[s] == c[s];
    } else {
      var f := FirstFree(g.chain, i);
      assert g.chain[f].at == g.lfree;
    }
  }

  lemma GrabInv(h: Heap, i: nat, size: nat)
    requires Inv(h) && Serves(h, i, size) && size >= MIN_SIZE
    ensures Inv(Grab(h, i, size))
  {
    hide Live, Total;
    CarveTiled(h.chain, h.End(), i, size);
    CarveTotal(h.chain, i, size);
    GrabCoalesced(h, i, size);
    GrabLfree(h, i, size);
    CarveLive(h.chain, h.End(), i, size);
    assert Live(Grab(h, i, size).chain, HEADER) != {};
  }

  /** How much of a free block a request gets: the request, when what remains can be a block of
      its own, and else the whole block. */
  function LengthFrom(room: int, size: nat): (len: int)
    ensures room >= size ==> size <= len < size + HEADER + MIN_SIZE && len <= room
    ensures room >= size ==> len == size || len == room
    ensures room > size + HEADER && len == room ==> room - size - HEADER < MIN_SIZE
  {
    if room - HEADER - MIN_SIZE >= size then size else room
  }

  /** lfree moves only when block i, which it named, is taken, and then to the next free one. */
  ghost predicate LfreeAfter(h: Heap, g: Heap, i: nat)
    requires i < |h.chain|
  {
    if h.chain[i].at != h.lfree then g.lfree == h.lfree
    else g.lfree > h.lfree && forall k | 0 <= k < |g.chain| && h.lfree <= g.chain[k].at < g.lfree :: g.chain[k].used
  }

  lemma GrabExact(h: Heap, i: nat, size: nat)
    requires Inv(h) && Serves(h, i, size) && size >= MIN_SIZE
    ensures var g := Grab(h, i, size);
            && i < |g.chain| - 1 && Room(g.chain, HEADER, i) == LengthFrom(Room(h.chain, HEADER, i), size)
            && g.usedMem == h.usedMem + Room(g.chain, HEADER, i) + HEADER
            && LfreeAfter(h, g, i)
  {
    hide Live, Total;
    CarveTiled(h.chain, h.End(), i, size);
    GrabLfreeMoves(h, i, size);
    hide LfreeAfter;
    var c, g := h.chain, Grab(h, i, size);
    assert g.chain[i].at == c[i].at;
    if Room(c, HEADER, i) >= size + HEADER + MIN_SIZE {
      assert g.chain[i + 1].at == c[i].at + HEADER + size;
    } else {
      assert g.chain[i + 1].at == c[i + 1].at;
    }
  }

  lemma GrabLfreeMoves(h: Heap, i: nat, size: nat)
    requires Inv(h) && Serves(h, i, size) && size >= MIN_SIZE
    ensures LfreeAfter(h, Grab(h, i, size), i)
  {
    hide Live, Total;
    CarveTiled(h.chain, h.End(), i, size);
    var g := Grab(h, i, size);
    if h.chain[i].at == h.lfree {
      var f := FirstFree(g.chain, i);
      assert g.chain[i].used;
      assert g.chain[f].at == g.lfree;
    }
  }

  /** What a successful rt_malloc does: one new area, the request cut from the front of the chosen
      block when the rest can be a block, and else that whole block. */
  lemma MallocServed(h: Heap, bytes: nat)
    requires Inv(h) && Choice(h, bytes) < |h.chain| - 1
    ensures var i, m := Choice(h, bytes), Malloc(h, bytes);
            && Inv(m.heap) && i < |m.heap.chain| - 1
            && Live(m.heap.chain, HEADER) == Live(h.chain, HEADER) + {Area(m.heap.chain, HEADER, i)}
            && Area(m.heap.chain, HEADER, i) == (m.ptr as nat, Room(m.heap.chain, HEADER, i))
            && Room(m.heap.chain, HEADER, i) >= Request(bytes)
            && !Allocated(h, m.ptr)
            && m.ptr == h.chain[i].at + HEADER && !h.chain[i].used
            && Room(m.heap.chain, HEADER, i) == LengthFrom(Room(h.chain, HEADER, i), Request(bytes))
            && m.heap.usedMem == h.usedMem + Room(m.heap.chain, HEADER, i) + HEADER
            && LfreeAfter(h, m.heap, i)
  {
    hide Live, Total, FirstFit, IndexOf, Carve, LengthFrom, LfreeAfter, Coalesced;
    var i, size := Choice(h, bytes), Request(bytes);
    GrabExact(h, i, size) by { MallocFirstFit(h, bytes); }
    var g := Grab(h, i, size);
    assert Malloc(h, bytes) == Outcome(g, h.chain[i].at + HEADER);
    assert Serves(h, i, size) by { MallocFirstFit(h, bytes); }
    assert !Allocated(h, h.chain[i].at + HEADER) by { FreeNotAllocated(h, i); }
    GrabServed(h, i, size);
  }

  lemma GrabServed(h: Heap, i: nat, size: nat)
    requires Inv(h) && Serves(h, i, size) && size >= MIN_SIZE
    ensures var g := Grab(h, i, size);
            && Inv(g) && i < |g.chain| - 1
            && Live(g.chain, HEADER) == Live(h.chain, HEADER) + {Area(g.chain, HEADER, i)}
            && g.chain[i].at == h.chain[i].at
            && Room(g.chain, HEADER, i) >= size
  {
    hide Live, Total;
    GrabInv(h, i, size);
    CarveTiled(h.chain, h.End(), i, size);
    CarveLive(h.chain, h.End(), i, size);
  }

  lemma FreeNotAllocated(h: Heap, i: nat)
    requires Tiled(h.chain, HEADER, h.End()) && i < |h.chain| - 1 && !h.chain[i].used
    ensures !Allocated(h, h.chain[i].at + HEADER)
  {
    IndexOfHeader(h.chain, HEADER, h.End(), i);
  }

  /** rt_malloc keeps the invariant; on success it adds one area, no smaller than asked for
      (unless RT_ALIGN wrapped), and touches no other; on failure it changes nothing. */
  lemma MallocSpec(h: Heap, bytes: nat)
    requires Inv(h)
    ensures var m := Malloc(h, bytes);
            && Inv(m.heap)
            && (m.ptr == RT_NULL ==> m.heap == h)
            && (m.ptr != RT_NULL ==> m.ptr >= HEADER && !Allocated(h, m.ptr))
            && (m.ptr != RT_NULL ==> exists len ::
                  && Live(m.heap.chain, HEADER) == Live(h.chain, HEADER) + {(m.ptr, len)}
                  && Request(bytes) <= len < Request(bytes) + HEADER + MIN_SIZE
                  && m.heap.usedMem == h.usedMem + len + HEADER
                  && (bytes <= 0xFFFF_FFFC ==> 4 * len >= bytes))
  {
    var i, m := Choice(h, bytes), Malloc(h, bytes);
    if i < |h.chain| - 1 {
      MallocServed(h, bytes);
      RequestHolds(bytes);
      LengthBound(Room(h.chain, HEADER, i), Request(bytes));
      hide Live, Inv, Choice, Malloc, LengthFrom, LfreeAfter, Request, Allocated, Room, AlignWords;
      var len := Room(m.heap.chain, HEADER, i);
      assert Area(m.heap.chain, HEADER, i) == (m.ptr as nat, len);
    }
  }

  lemma RequestHolds(bytes: nat)
    ensures bytes <= 0xFFFF_FFFC ==> 4 * Request(bytes) >= bytes
  {
    WordsHoldBytes(bytes);
  }

  lemma LengthBound(room: int, size: nat)
    ensures LengthFrom(room, size) < size + HEADER + MIN_SIZE
  {
  }

  // ------------------------------------------------------------------ plug_holes and rt_free

  /** Two heaps with the same allocations, sizes and statistics. */
  ghost predicate SameUse(h: Heap, g: Heap) {
    && g.memSize == h.memSize && g.usedMem == h.usedMem && g.maxMem == h.maxMem
    && Live(g.chain, HEADER) == Live(h.chain, HEADER)
  }

  lemma AbsorbFreeOrEnd(c: seq<Block>, end: nat, i: nat, at: int)
    requires Tiled(c, HEADER, end) && 0 < i < |c| - 1 && !c[i - 1].used && !c[i].used
    requires FreeOrEnd(c, at)
    ensures FreeOrEnd(Absorb(c, i), if at == c[i].at then c[i - 1].at else at)
  {
    var r := Absorb(c, i);
    var s :| 0 <= s < |c| && c[s].at == at && (c[s].used ==> s == |c| - 1);
    var t := if s < i then s else s - 1;
    assert s != i ==> r[t] == c[s];
    assert r[i - 1] == c[i - 1];
  }

  lemma AbsorbShape(h: Heap, i: nat)
    requires Shape(h) && 0 < i < |h.chain| - 1 && !h.chain[i - 1].used && !h.chain[i].used
    ensures var c := h.chain;
            var g := h.(chain := Absorb(c, i), lfree := if h.lfree == c[i].at then c[i - 1].at else h.lfree);
            && Shape(g) && SameUse(h, g) && g.lfree <= h.lfree
  {
    AbsorbTiled(h.chain, HEADER, h.End(), i);
    AbsorbTotal(h.chain, 0, i, true);
    AbsorbLive(h.chain, HEADER, h.End(), i);
    AbsorbFreeOrEnd(h.chain, h.End(), i, h.lfree);
  }

  /** After the forward merge the block behind i is used; nothing else was disturbed. */
  lemma PlugCoalesced(h: Heap, i: nat)
    requires Tiled(h.chain, HEADER, h.End()) && i < |h.chain| - 1 && !h.chain[i].used
    requires CoalescedBut(h.chain, i)
    ensures var g := PlugForward(h, i).chain;
            && i < |g| - 1 && g[..i + 1] == h.chain[..i + 1]
            && g[i + 1].used && CoalescedBut(g, i)
  {
    var c := h.chain;
    if i + 1 < |c| - 1 && !c[i + 1].used {
      AbsorbRightCoalesced(c, i);
    }
  }

  lemma PlugBackCoalesced(h: Heap, i: nat)
    requires Tiled(h.chain, HEADER, h.End()) && i < |h.chain| - 1 && !h.chain[i].used
    requires CoalescedBut(h.chain, i) && h.chain[i + 1].used
    ensures Coalesced(PlugBackward(h, i).chain)
  {
    var c := h.chain;
    if i > 0 && !c[i - 1].used {
      AbsorbLeftCoalesced(c, i);
      assert Absorb(c, i)[i] == c[i + 1];
      CoalescedWhole(Absorb(c, i), i - 1);
    } else {
      CoalescedWhole(c, i);
    }
  }

  /** plug_holes restores coalescing without changing any allocation or statistic. */
  lemma PlugHolesSpec(h: Heap, i: nat)
    requires Shape(h) && i < |h.chain| - 1 && !h.chain[i].used && CoalescedBut(h.chain, i)
    ensures var g := PlugHoles(h, i);
            && Shape(g) && Coalesced(g.chain) && SameUse(h, g) && g.lfree <= h.lfree
  {
    hide Live, Total;
    var f := PlugForward(h, i);
    PlugCoalesced(h, i);
    assert f.chain[i] == f.chain[..i + 1][i] == h.chain[i];
    if f != h { AbsorbShape(h, i + 1); }
    PlugBackCoalesced(f, i);
    if PlugBackward(f, i) != f { AbsorbShape(f, i); }
  }

  lemma UnmarkShape(h: Heap, i: nat)
    requires Inv(h) && i < |h.chain| - 1 && h.chain[i].used
    ensures var g := Unmark(h, i);
            && Shape(g) && CoalescedBut(g.chain, i) && g.lfree <= h.chain[i].at
            && Live(g.chain, HEADER) == Live(h.chain, HEADER) - {Area(h.chain, HEADER, i)}
  {
    hide Live, Total;
    var c, g := h.chain, Unmark(h, i);
    MarkTiled(c, HEADER, h.End(), i, false);
    MarkTotal(c, 0, i, false, true);
    MarkLive(c, HEADER, h.End(), i, false);
    var s :| 0 <= s < |c| && c[s].at == h.lfree && (c[s].used ==> s == |c| - 1);
    assert g.chain[s].at == h.lfree && g.chain[i].at == c[i].at;
    CoalescedRest(c, i);
  }

  /** Where the free block begins that freeing block i leaves. */
  function FreedStart(c: seq<Block>, i: nat): nat
    requires i < |c|
  {
    if i > 0 && !c[i - 1].used then c[i - 1].at else c[i].at
  }

  lemma FreeLfree(h: Heap, i: nat)
    requires Inv(h) && i < |h.chain| - 1 && h.chain[i].used
    ensures Free(h, i).usedMem == h.usedMem - Room(h.chain, HEADER, i) - HEADER
    ensures Free(h, i).lfree == if h.chain[i].at < h.lfree then FreedStart(h.chain, i) else h.lfree
  {
    hide Live, Total;
    var c, u := h.chain, Unmark(h, i);
    var s :| 0 <= s < |c| && c[s].at == h.lfree && (c[s].used ==> s == |c| - 1);
    assert s != i;
    assert c[i].at < c[i + 1].at;
    var f := PlugForward(u, i);
    assert f.chain[i].at == c[i].at && (i > 0 ==> f.chain[i - 1] == c[i - 1]);
  }

  /** rt_free keeps the invariant and gives back exactly the block's area; lfree moves down to the
      freed space when that lies in front of it, and stays otherwise. */
  lemma FreeSpec(h: Heap, i: nat)
    requires Inv(h) && i < |h.chain| - 1 && h.chain[i].used
    ensures var g := Free(h, i);
            && Inv(g)
            && Live(g.chain, HEADER) == Live(h.chain, HEADER) - {Area(h.chain, HEADER, i)}
            && g.maxMem == h.maxMem && g.usedMem <= h.usedMem
            && g.usedMem == h.usedMem - Room(h.chain, HEADER, i) - HEADER
            && g.lfree == if h.chain[i].at < h.lfree then FreedStart(h.chain, i) else h.lfree
  {
    hide Live, Total;
    UnmarkShape(h, i);
    PlugHolesSpec(Unmark(h, i), i);
    FreeLfree(h, i);
    var g := Free(h, i);
    if Live(g.chain, HEADER) == {} {
      AllFreeIsOneBlock(g.chain, HEADER, g.End());
    }
  }

  /** Full recovery: with nothing allocated the heap is the initial one, up to the recorded maximum. */
  lemma NothingAllocatedIsInit(h: Heap)
    requires Inv(h) && Live(h.chain, HEADER) == {}
    ensures h == Init(h.memSize).(maxMem := h.maxMem)
  {
    AllFreeIsOneBlock(h.chain, HEADER, h.End());
    TotalPair(h.chain, 0, true);
  }

  /** A fresh heap never hands out all it has: the request for exactly its room is refused. */
  lemma WholeHeapRefused(memSize: nat)
    requires MIN_SIZE <= memSize < 0x4000_0000
    ensures var h := Init(memSize);
            && Room(h.chain, HEADER, 0) == memSize && !h.chain[0].used
            && AlignWords(4 * memSize) == memSize && Malloc(h, 4 * memSize) == Outcome(h, RT_NULL)
  {
    InitInv(memSize);
    var h := Init(memSize);
    MallocFirstFit(h, 4 * memSize);
    assert !Serves(h, 0, memSize);
  }

  /** The bound of rt_malloc's search as the code computes it, in 32-bit arithmetic. */
  predicate SearchGoesOn(ptr: nat, memSize: nat, size: nat) {
    ptr < (memSize - size) % 0x4000_0000
  }

  /** Where nothing wraps it is the bound of FirstFit. */
  lemma SearchBound(ptr: nat, memSize: nat, size: nat)
    requires size <= memSize < 0x4000_0000
    ensures SearchGoesOn(ptr, memSize, size) <==> ptr < memSize - size
  {
  }

  /** In a heap of one or two words the bound wraps for every request that passes the size check:
      the search goes on from the only block, which is too small, to the sentinel, and from the
      sentinel to itself, for ever. */
  lemma TinyHeapNeverAnswers(memSize: nat, bytes: nat)
    requires 1 <= memSize < MIN_SIZE && bytes != 0 && 1 <= AlignWords(bytes) <= memSize
    ensures var h, size := Init(memSize), Request(bytes);
            && !Fits(h.chain, 0, size)
            && SearchGoesOn(h.chain[0].at, memSize, size)
            && SearchGoesOn(h.chain[1].at, memSize, size) && h.chain[1].used
  {
  }

  // ------------------------------------------------------------------ the shrinking rt_realloc

  /** The remainder rt_realloc cuts off is big enough to be a block. */
  predicate Cuttable(c: seq<Block>, i: nat, words: nat) {
    i < |c| - 1 && c[i].used && 0 < words && words + HEADER + MIN_SIZE < Room(c, HEADER, i)
  }

  lemma CutTailShape(h: Heap, i: nat, words: nat)
    requires Inv(h) && Cuttable(h.chain, i, words)
    ensures var g := CutTail(h, i, words);
            Shape(g) && i + 1 < |g.chain| - 1 && !g.chain[i + 1].used && CoalescedBut(g.chain, i + 1)
  {
    hide Live, Total;
    var c, b := h.chain, Block(h.chain[i].at + HEADER + words, false);
    CutTailTiled(h, i, words);
    CutTailTotal(h, i, words);
    assert CoalescedBut(Split(c, i, b), i + 1) by { SplitCoalesced(c, i, b); }
    assert FreeOrEnd(Split(c, i, b), h.lfree) by { SplitFreeOrEnd(c, i, b, h.lfree); }
  }

  lemma CutTailTiled(h: Heap, i: nat, words: nat)
    requires Tiled(h.chain, HEADER, h.End()) && Cuttable(h.chain, i, words)
    ensures Tiled(CutTail(h, i, words).chain, HEADER, h.End())
  {
    SplitTiled(h.chain, HEADER, h.End(), i, Block(h.chain[i].at + HEADER + words, false));
  }

  lemma CutTailTotal(h: Heap, i: nat, words: nat)
    requires i < |h.chain| - 1 && h.chain[i].used && h.usedMem == Total(h.chain, 0, true)
    ensures CutTail(h, i, words).usedMem == Total(CutTail(h, i, words).chain, 0, true)
  {
    SplitTotal(h.chain, 0, i, Block(h.chain[i].at + HEADER + words, false), true);
  }

  lemma SplitFreeOrEnd(c: seq<Block>, i: nat, b: Block, at: int)
    requires FreeOrEnd(c, at) && i < |c| - 1
    ensures FreeOrEnd(Split(c, i, b), at)
  {
    var s :| 0 <= s < |c| && c[s].at == at && (c[s].used ==> s == |c| - 1);
    assert Split(c, i, b)[if s <= i then s else s + 1] == c[s];
  }

  lemma CutTailLive(h: Heap, i: nat, words: nat)
    requires Inv(h) && Cuttable(h.chain, i, words)
    ensures Live(CutTail(h, i, words).chain, HEADER) ==
            Live(h.chain, HEADER) - {Area(h.chain, HEADER, i)} + {(h.chain[i].at + HEADER, words)}
  {
    SplitLive(h.chain, HEADER, h.End(), i, Block(h.chain[i].at + HEADER + words, false));
  }

  lemma ShrinkLfree(h: Heap, i: nat, words: nat)
    requires Inv(h) && Cuttable(h.chain, i, words)
    ensures var g := Shrink(h, i, words);
            && g.usedMem == h.usedMem - (Room(h.chain, HEADER, i) - words)
            && g.lfree == if NextIsLowest(h, i) then h.chain[i].at + HEADER + words else h.lfree
  {
    hide Live, Total;
    var c, t := h.chain, CutTail(h, i, words);
    var s :| 0 <= s < |c| && c[s].at == h.lfree && (c[s].used ==> s == |c| - 1);
    assert t.chain[i + 2] == c[i + 1] && t.chain[i] == c[i];
    assert i + 1 < |c| - 1 && c[i + 1].used ==> s != i + 1;
  }

  lemma ShrinkSpec(h: Heap, i: nat, words: nat)
    requires Inv(h) && Cuttable(h.chain, i, words)
    ensures var g := Shrink(h, i, words);
            && Inv(g)
            && Live(g.chain, HEADER) == Live(h.chain, HEADER) - {Area(h.chain, HEADER, i)} + {(h.chain[i].at + HEADER, words)}
            && g.maxMem == h.maxMem
            && g.usedMem == h.usedMem - (Room(h.chain, HEADER, i) - words)
            && g.lfree == if NextIsLowest(h, i) then h.chain[i].at + HEADER + words else h.lfree
  {
    ShrinkLfree(h, i, words);
    CutTailShape(h, i, words);
    CutTailLive(h, i, words);
    PlugHolesSpec(CutTail(h, i, words), i + 1);
    assert (h.chain[i].at + HEADER, words) in Live(Shrink(h, i, words).chain, HEADER);
  }

  // ------------------------------------------------------------------ rt_realloc

  /** What rt_realloc asks: a live pointer, NULL, or one it can tell to be outside the heap
      (but then not with a size of zero, which would pass the pointer on to rt_free). */
  predicate Reallocable(h: Heap, p: int, bytes: nat) {
    Freeable(h, p) || ((p < 0 || p >= h.End()) && AlignWords(bytes) != 0)
  }

  /** rt_malloc leaves every allocated block where it is. */
  lemma MallocKeepsArea(h: Heap, bytes: nat, p: int)
    requires Inv(h) && Allocated(h, p)
    ensures var g := Malloc(h, bytes).heap;
            Allocated(g, p) && Area(g.chain, HEADER, Owner(g, p)) == Area(h.chain, HEADER, Owner(h, p))
  {
    var g := Malloc(h, bytes).heap;
    var x := Area(h.chain, HEADER, Owner(h, p));
    LiveIntro(h.chain, HEADER, Owner(h, p));
    MallocSpec(h, bytes);
    assert x in Live(g.chain, HEADER);
    AreaIsInUse(g.chain, HEADER, g.End(), x);
  }

  /** Allocate elsewhere, copy, free. */
  function Move(h: Heap, p: int, words: nat): (r: Outcome)
    requires Inv(h) && Allocated(h, p)
    ensures r.heap.memSize == h.memSize
  {
    var m := Malloc(h, 4 * words);
    if m.ptr == RT_NULL then m
    else
      MallocKeepsArea(h, 4 * words, p);
      Outcome(FreePtr(m.heap, p), m.ptr)
  }

  /** rt_realloc on a live block and a non-zero size. */
  function Resize(h: Heap, p: int, words: nat): (r: Outcome)
    requires Inv(h) && Allocated(h, p)
    ensures r.heap.memSize == h.memSize
  {
    var i := Owner(h, p);
    if Room(h.chain, HEADER, i) == words then Outcome(h, p)
    else if words + HEADER + MIN_SIZE < Room(h.chain, HEADER, i) then Outcome(Shrink(h, i, words), p)
    else Move(h, p, words)
  }

  function Realloc(h: Heap, p: int, bytes: nat): (r: Outcome)
    requires Inv(h) && Reallocable(h, p, bytes)
    ensures r.heap.memSize == h.memSize
  {
    var words := AlignWords(bytes);
    if words > h.memSize then Outcome(h, RT_NULL)
    else if words == 0 then Outcome(FreePtr(h, p), RT_NULL)
    else if p == RT_NULL then Malloc(h, 4 * words)
    else if p < 0 || p >= h.End() then Outcome(h, p)
    else Resize(h, p, words)
  }

  lemma FreePtrSpec(h: Heap, p: int)
    requires Inv(h) && Freeable(h, p)
    ensures var g := FreePtr(h, p);
            && Inv(g)
            && g.maxMem == h.maxMem && g.usedMem <= h.usedMem
            && (p == RT_NULL ==> g == h)
            && (p != RT_NULL ==>
                && Live(g.chain, HEADER) == Live(h.chain, HEADER) - {Area(h.chain, HEADER, Owner(h, p))}
                && g.usedMem == h.usedMem - Room(h.chain, HEADER, Owner(h, p)) - HEADER)
  {
    if p != RT_NULL {
      FreeSpec(h, Owner(h, p));
    }
  }

  /** rt_realloc keeps the invariant and replaces exactly the area of p: by nothing for size 0; by
      its front part in place, when what is cut off is more than a smallest block; by nothing else
      on an exact fit; and otherwise by another area, no larger than rt_malloc gives, or not at all
      when no block serves.  A returned RT_NULL for a non-zero size leaves the heap untouched. */
  lemma ReallocSpec(h: Heap, p: int, bytes: nat)
    requires Inv(h) && Reallocable(h, p, bytes) && Allocated(h, p)
    ensures var r, words, was, room := Realloc(h, p, bytes), AlignWords(bytes), Area(h.chain, HEADER, Owner(h, p)), Room(h.chain, HEADER, Owner(h, p));
            && Inv(r.heap)
            && (words > h.memSize ==> r == Outcome(h, RT_NULL))
            && (r.ptr == RT_NULL && words > 0 ==> r.heap == h)
            && (words == 0 ==> r.ptr == RT_NULL && Live(r.heap.chain, HEADER) == Live(h.chain, HEADER) - {was}
                               && r.heap.usedMem == h.usedMem - room - HEADER)
            && (0 < words == room <= h.memSize ==> r == Outcome(h, p))
            && (0 < words <= h.memSize && words + HEADER + MIN_SIZE < room ==>
                  r.ptr == p && r.heap.usedMem == h.usedMem - (room - words)
                  && Live(r.heap.chain, HEADER) == Live(h.chain, HEADER) - {was} + {(p, words)})
            && (0 < words <= h.memSize && words != room && words + HEADER + MIN_SIZE >= room ==>
                  r.ptr != p && (r.ptr == RT_NULL <==> forall j: nat :: !Serves(h, j, Request(bytes))))
            && (r.ptr != RT_NULL ==>
                exists len :: words <= len < Request(bytes) + HEADER + MIN_SIZE && (bytes <= 0xFFFF_FFFC ==> 4 * len >= bytes)
                              && r.ptr >= HEADER && r.heap.usedMem == h.usedMem - room + len
                              && Live(r.heap.chain, HEADER) == Live(h.chain, HEADER) - {was} + {(r.ptr, len)})
  {
    hide Live, Total, Tiled, Coalesced, IndexOf, Malloc, Shrink;
    WordsHoldBytes(bytes);
    var words := AlignWords(bytes);
    var i := Owner(h, p);
    var r := Realloc(h, p, bytes);
    var was := Area(h.chain, HEADER, i);
    LiveIntro(h.chain, HEADER, i);
    AllocatedInside(h, p);
    if words > h.memSize {
    } else if words == 0 {
      FreePtrSpec(h, p);
    } else {
      if Room(h.chain, HEADER, i) == words {
        assert Live(h.chain, HEADER) == Live(h.chain, HEADER) - {was} + {(r.ptr, words)};
      } else if words + HEADER + MIN_SIZE < Room(h.chain, HEADER, i) {
        ShrinkSpec(h, i, words);
        assert Live(r.heap.chain, HEADER) == Live(h.chain, HEADER) - {was} + {(r.ptr, words)};
      } else {
        AlignAgain(bytes);
        assert Request(4 * words) == Request(bytes);
        ReallocMoves(h, p, words);
        MallocServes(h, 4 * words);
      }
    }
  }

  /** Other pointers: NULL makes rt_realloc an rt_malloc, and a pointer outside the heap comes back
      as it is; a size above the heap's, or of no words, gives RT_NULL. */
  lemma ReallocElsewhere(h: Heap, p: int, bytes: nat)
    requires Inv(h) && Reallocable(h, p, bytes) && !Allocated(h, p)
    ensures var r, words := Realloc(h, p, bytes), AlignWords(bytes);
            && (words == 0 || words > h.memSize ==> r == Outcome(h, RT_NULL))
            && (0 < words <= h.memSize && p != RT_NULL ==> r == Outcome(h, p))
            && (0 < words <= h.memSize && p == RT_NULL && r.ptr == RT_NULL ==> r.heap == h && forall j: nat :: !Serves(h, j, Request(bytes)))
            && (0 < words <= h.memSize && p == RT_NULL && r.ptr != RT_NULL ==>
                  exists len :: Request(bytes) <= len < Request(bytes) + HEADER + MIN_SIZE && r.heap.usedMem == h.usedMem + len + HEADER
                                && Live(r.heap.chain, HEADER) == Live(h.chain, HEADER) + {(r.ptr, len)})
  {
    hide Live, Total, Tiled, Coalesced, IndexOf, Malloc, Resize;
    var words := AlignWords(bytes);
    AlignAgain(bytes);
    assert words > 0 ==> Request(4 * words) == Request(bytes);
    MallocSpec(h, 4 * words);
    MallocServes(h, 4 * words);
  }

  /** rt_malloc answers RT_NULL exactly when it must. */
  lemma MallocServes(h: Heap, bytes: nat)
    requires Inv(h)
    ensures Malloc(h, bytes).ptr == RT_NULL <==>
            bytes == 0 || AlignWords(bytes) > h.memSize || forall j: nat :: !Serves(h, j, Request(bytes))
  {
    MallocFirstFit(h, bytes);
    hide Live, Total, FirstFit, IndexOf, Coalesced, Serves;
  }

  lemma AlignAgain(bytes: nat)
    ensures AlignWords(4 * AlignWords(bytes)) == AlignWords(bytes)
  {
  }

  lemma AllocatedInside(h: Heap, p: int)
    requires Tiled(h.chain, HEADER, h.End()) && Allocated(h, p)
    ensures HEADER <= p < h.End()
  {
    var i := Owner(h, p);
    assert h.chain[i].at + HEADER < h.chain[|h.chain| - 1].at;
  }

  lemma ReallocMoves(h: Heap, p: int, words: nat)
    requires Inv(h) && Allocated(h, p) && 0 < words
    ensures var m := Malloc(h, 4 * words);
            && Inv(m.heap)
            && (m.ptr == RT_NULL ==> m.heap == h)
            && Allocated(m.heap, p)
            && Inv(FreePtr(m.heap, p))
            && m.ptr != p
            && (m.ptr != RT_NULL ==>
                exists len :: Request(4 * words) <= len < Request(4 * words) + HEADER + MIN_SIZE && m.ptr >= HEADER &&
                              FreePtr(m.heap, p).usedMem == h.usedMem - Room(h.chain, HEADER, Owner(h, p)) + len &&
                              Live(FreePtr(m.heap, p).chain, HEADER)
                              == Live(h.chain, HEADER) - {Area(h.chain, HEADER, Owner(h, p))} + {(m.ptr, len)})
  {
    hide Live, Total, Tiled, Coalesced, IndexOf, Malloc;
    var m := Malloc(h, 4 * words);
    AllocatedInside(h, p);
    MallocSpec(h, 4 * words);
    MallocKeepsArea(h, 4 * words, p);
    assert Inv(FreePtr(m.heap, p)) by { FreePtrSpec(m.heap, p); }
    if m.ptr != RT_NULL {
      ReallocMovesLive(h, p, words);
    }
  }

  lemma ReallocMovesLive(h: Heap, p: int, words: nat)
    requires Inv(h) && Allocated(h, p) && 0 < words && Malloc(h, 4 * words).ptr != RT_NULL
    requires var m := Malloc(h, 4 * words).heap;
             && Inv(m) && Allocated(m, p)
             && Area(m.chain, HEADER, Owner(m, p)) == Area(h.chain, HEADER, Owner(h, p))
    ensures var m := Malloc(h, 4 * words);
            exists len :: Request(4 * words) <= len < Request(4 * words) + HEADER + MIN_SIZE && m.ptr >= HEADER &&
                          FreePtr(m.heap, p).usedMem == h.usedMem - Room(h.chain, HEADER, Owner(h, p)) + len &&
                          Live(FreePtr(m.heap, p).chain, HEADER)
                          == Live(h.chain, HEADER) - {Area(h.chain, HEADER, Owner(h, p))} + {(m.ptr, len)}
  {
    hide Total, Tiled;
    var m, was := Malloc(h, 4 * words), Area(h.chain, HEADER, Owner(h, p));
    MallocServed(h, 4 * words);
    var len := Room(m.heap.chain, HEADER, Choice(h, 4 * words));
    var now := Live(FreePtr(m.heap, p).chain, HEADER);
    FreePtrSpec(m.heap, p);
    hide Live;
    assert now == Live(m.heap.chain, HEADER) - {was};
    NewAreaIsOther(h, p, (m.ptr, len));
    AddThenRemove(Live(h.chain, HEADER), Live(m.heap.chain, HEADER), now, was, (m.ptr, len));
  }

  lemma NewAreaIsOther(h: Heap, p: int, x: (nat, int))
    requires Allocated(h, p) && !Allocated(h, x.0)
    ensures Area(h.chain, HEADER, Owner(h, p)) != x
  {
  }

  // ------------------------------------------------------------------ is lfree the lowest free block?

  lemma GrabLowest(h: Heap, i: nat, size: nat)
    requires Inv(h) && LowestFree(h) && Serves(h, i, size) && size >= MIN_SIZE
    ensures LowestFree(Grab(h, i, size))
  {
    var c, g := h.chain, Grab(h, i, size);
    var d := g.chain;
    CarveTiled(c, h.End(), i, size);
    assert d[..i] == c[..i];
    forall k | 0 <= k < |d| - 1 && d[k].at < g.lfree ensures d[k].used {
      if k < i {
        assert d[k] == d[..i][k] == c[k];
        assert c[k].at < c[i].at;
      }
    }
  }

  /** Block i is free and large enough, wherever it lies, and is no exact fit in the last place. */
  ghost predicate ServesAnywhere(h: Heap, i: nat, size: nat) {
    i < |h.chain| - 1 && Fits(h.chain, i, size) && !(i == |h.chain| - 2 && Room(h.chain, HEADER, i) == size)
  }

  /** rt_malloc keeps "lfree is the lowest free block", and its search then covers the whole heap:
      it takes the lowest block that serves, and fails exactly when none does. */
  lemma MallocLowest(h: Heap, bytes: nat)
    requires Inv(h) && LowestFree(h)
    ensures LowestFree(Malloc(h, bytes).heap)
    ensures var i := Choice(h, bytes);
            && (i < |h.chain| - 1 <==>
                bytes != 0 && AlignWords(bytes) <= h.memSize && exists j: nat :: ServesAnywhere(h, j, Request(bytes)))
            && (i < |h.chain| - 1 ==>
                ServesAnywhere(h, i, Request(bytes)) && forall j: nat | ServesAnywhere(h, j, Request(bytes)) :: i <= j)
  {
    var i, size := Choice(h, bytes), Request(bytes);
    MallocFirstFit(h, bytes);
    assert forall j: nat :: ServesAnywhere(h, j, size) <==> Serves(h, j, size);
    if i < |h.chain| - 1 {
      assert Serves(h, i, size) by { MallocFirstFit(h, bytes); }
      GrabLowest(h, i, size);
    }
  }

  lemma AbsorbLowest(h: Heap, i: nat)
    requires Shape(h) && 0 < i < |h.chain| - 1 && !h.chain[i - 1].used && !h.chain[i].used && LowestFree(h)
    ensures LowestFree(h.(chain := Absorb(h.chain, i))) && h.lfree != h.chain[i].at
  {
    var c, d := h.chain, Absorb(h.chain, i);
    assert forall k | 0 <= k < |d| :: d[k] == if k < i then c[k] else c[k + 1];
    assert c[i - 1].at < c[i].at;
  }

  lemma PlugHolesLowest(h: Heap, i: nat)
    requires Shape(h) && i < |h.chain| - 1 && !h.chain[i].used && CoalescedBut(h.chain, i) && LowestFree(h)
    ensures LowestFree(PlugHoles(h, i))
  {
    var f := PlugForward(h, i);
    PlugCoalesced(h, i);
    assert f.chain[i] == f.chain[..i + 1][i] == h.chain[i];
    if f != h { AbsorbShape(h, i + 1); AbsorbLowest(h, i + 1); }
    if PlugBackward(f, i) != f { AbsorbLowest(f, i); }
  }

  /** rt_free keeps it as well. */
  lemma FreeLowest(h: Heap, i: nat)
    requires Inv(h) && i < |h.chain| - 1 && h.chain[i].used && LowestFree(h)
    ensures LowestFree(Free(h, i))
  {
    UnmarkShape(h, i);
    PlugHolesLowest(Unmark(h, i), i);
  }

  /** The block behind block i is free and is the one lfree names. */
  predicate NextIsLowest(h: Heap, i: nat) {
    i + 1 < |h.chain| - 1 && h.lfree == h.chain[i + 1].at
  }

  /** Around the cut the shrunk chain is known exactly. */
  lemma ShrinkChain(h: Heap, i: nat, words: nat)
    requires Inv(h) && Cuttable(h.chain, i, words)
    ensures var c, g, x := h.chain, Shrink(h, i, words), h.chain[i].at + HEADER + words;
            && i + 1 < |g.chain| - 1
            && g.chain[i + 1] == Block(x, false) && g.chain[..i + 1] == c[..i + 1]
            && g.lfree == if NextIsLowest(h, i) && !c[i + 1].used then x else h.lfree
  {
    var cut := CutTail(h, i, words);
    PlugAfterUsed(cut, i);
    assert cut.chain[..i + 1] == h.chain[..i + 1] && cut.chain[i + 2] == h.chain[i + 1];
  }

  /** plug_holes behind a used block can only merge to the right. */
  lemma PlugAfterUsed(h: Heap, i: nat)
    requires i + 1 < |h.chain| - 1 && h.chain[i].used && !h.chain[i + 1].used
    ensures var c, g := h.chain, PlugHoles(h, i + 1);
            && i + 1 < |g.chain| - 1 && g.chain[i + 1] == c[i + 1] && g.chain[..i + 1] == c[..i + 1]
            && g.lfree == if i + 2 < |c| - 1 && !c[i + 2].used && h.lfree == c[i + 2].at then c[i + 1].at else h.lfree
  {
    var c, f := h.chain, PlugForward(h, i + 1);
    assert f.chain[i] == c[i] && f.chain[i + 1] == c[i + 1];
    assert f.chain[..i + 1] == c[..i + 1];
    assert PlugHoles(h, i + 1) == f;
  }

  lemma LfreePlace(h: Heap, i: nat)
    requires Shape(h) && i < |h.chain| - 1 && h.chain[i].used
    ensures h.lfree < h.chain[i].at || h.chain[i + 1].at <= h.lfree
    ensures h.lfree == h.chain[i + 1].at && h.chain[i + 1].used ==> i + 1 == |h.chain| - 1
  {
    var c := h.chain;
    var s :| 0 <= s < |c| && c[s].at == h.lfree && (c[s].used ==> s == |c| - 1);
    assert s > i + 1 ==> c[i + 1].at < c[s].at;
  }

  /** An in-place shrink keeps lfree lowest exactly when lfree was already below the block, or
      named the free block right behind it: the new remainder is never compared with lfree. */
  lemma ShrinkLowest(h: Heap, i: nat, words: nat)
    requires Inv(h) && LowestFree(h) && Cuttable(h.chain, i, words)
    ensures LowestFree(Shrink(h, i, words)) <==> h.lfree < h.chain[i].at || NextIsLowest(h, i)
  {
    ShrinkChain(h, i, words);
    assert Tiled(Shrink(h, i, words).chain, HEADER, h.End()) by { ShrinkSpec(h, i, words); }
    RemainderLowest(h, Shrink(h, i, words), i, h.chain[i].at + HEADER + words);
  }

  /** h and g agree up to block i, g has a free block at x behind it. */
  lemma RemainderLowest(h: Heap, g: Heap, i: nat, x: nat)
    requires Shape(h) && LowestFree(h) && i < |h.chain| - 1 && h.chain[i].used
    requires Tiled(g.chain, HEADER, h.End()) && i + 1 < |g.chain| - 1 && g.chain[i + 1] == Block(x, false)
    requires g.chain[..i + 1] == h.chain[..i + 1] && h.chain[i].at < x < h.chain[i + 1].at
    requires g.lfree == if NextIsLowest(h, i) && !h.chain[i + 1].used then x else h.lfree
    ensures LowestFree(g) <==> h.lfree < h.chain[i].at || NextIsLowest(h, i)
  {
    var c := h.chain;
    LfreePlace(h, i);
    if h.lfree < c[i].at || NextIsLowest(h, i) {
      forall k | 0 <= k < |g.chain| - 1 && g.chain[k].at < g.lfree ensures g.chain[k].used {
        assert k <= i;
        assert g.chain[k] == g.chain[..i + 1][k] == c[k];
      }
    } else {
      assert g.chain[i + 1].at < g.lfree;
    }
  }

  /** The general statement for rt_realloc: only the in-place shrink can lose the property. */
  lemma ReallocLowest(h: Heap, p: int, bytes: nat)
    requires Inv(h) && LowestFree(h) && Reallocable(h, p, bytes)
    ensures var words, i := AlignWords(bytes), Owner(h, p);
            LowestFree(Realloc(h, p, bytes).heap) <==>
            !(words <= h.memSize && Allocated(h, p) && Cuttable(h.chain, i, words))
            || h.lfree < h.chain[i].at || NextIsLowest(h, i)
  {
    hide Live, Total, Tiled, Coalesced, IndexOf, Malloc, Shrink, LowestFree;
    var words, i := AlignWords(bytes), Owner(h, p);
    if words <= h.memSize {
      if Allocated(h, p) && words > 0 {
        AllocatedInside(h, p);
        if Cuttable(h.chain, i, words) {
          ShrinkLowest(h, i, words);
        } else if Room(h.chain, HEADER, i) != words {
          ReallocMoves(h, p, words);
          MallocLowest(h, 4 * words);
          FreeLowest(Malloc(h, 4 * words).heap, Owner(Malloc(h, 4 * words).heap, p));
        }
      } else if Allocated(h, p) {
        FreeLowest(h, i);
      } else if p == RT_NULL {
        MallocLowest(h, 4 * words);
      }
    }
  }

  /** A 30-word heap handed out as one block. */
  const FULL: Heap := Heap(30, [Block(0, true), Block(33, true)], 33, 33, 33)

  lemma FullIsReached()
    ensures Malloc(Init(30), 4 * 29) == Outcome(FULL, 3)
  {
    var c := Init(30).chain;
    assert FirstFit(c, 0, 29, 30) == 0;
    assert Carve(c, 0, 29) == FULL.chain;
    assert FirstFree(FULL.chain, 0) == 1;
  }

  /** Two small requests to a fresh heap of 30 words get words 3 to 5 and 9 to 11: three words each,
      behind a header of three, with 6 words used after the first. */
  lemma TwoSmallBlocks()
    ensures var a := Malloc(Init(30), 4);
            var b := Malloc(a.heap, 4);
            && a.ptr == 3 && a.heap.usedMem == 6 && a.heap.lfree == 6
            && b.ptr == 9 && b.heap.usedMem == 12 && b.heap.maxMem == 12 && b.heap.lfree == 12
            && b.heap.chain == [Block(0, true), Block(6, true), Block(12, false), Block(33, true)]
  {
    FirstSmallBlock();
    SecondSmallBlock();
  }

  const ONE_SMALL := Heap(30, [Block(0, true), Block(6, false), Block(33, true)], 6, 6, 6)
  const TWO_SMALL := Heap(30, [Block(0, true), Block(6, true), Block(12, false), Block(33, true)], 12, 12, 12)

  lemma FirstSmallBlock()
    ensures Malloc(Init(30), 4) == Outcome(ONE_SMALL, 3)
  {
    var c := Init(30).chain;
    assert FirstFit(c, 0, 3, 30) == 0;
    assert Carve(c, 0, 3) == ONE_SMALL.chain;
    assert FirstFree(ONE_SMALL.chain, 0) == 1;
  }

  lemma SecondSmallBlock()
    ensures Malloc(ONE_SMALL, 4) == Outcome(TWO_SMALL, 9)
  {
    var c := ONE_SMALL.chain;
    assert IndexOf(c, 6) == 1;
    assert FirstFit(c, 1, 3, 30) == 1;
    assert Carve(c, 1, 3) == TWO_SMALL.chain;
    assert FirstFree(TWO_SMALL.chain, 1) == 2;
  }

  /** A run that loses it: take the whole heap, then shrink the block in place. */
  lemma ReallocLosesLowest()
    ensures var h := Malloc(Init(30), 4 * 29).heap;
            && Inv(h) && LowestFree(h) && Allocated(h, 3)
            && !LowestFree(Realloc(h, 3, 4 * 4).heap)
  {
    InitInv(30);
    MallocSpec(Init(30), 4 * 29);
    MallocLowest(Init(30), 4 * 29);
    FullIsReached();
    assert Owner(FULL, 3) == 0;
    ReallocLowest(FULL, 3, 4 * 4);
  }

  lemma InitInv(memSize: nat)
    requires memSize >= MIN_SIZE
    ensures Inv(Init(memSize)) && LowestFree(Init(memSize)) && Live(Init(memSize).chain, HEADER) == {}
    ensures Init(memSize).usedMem == 0 && Init(memSize).maxMem == 0
  {
    var c := Init(memSize).chain;
    TotalPair(c, 0, true);
    assert c[1..] == [c[1]];
    assert c[0].at == 0;
  }

  // ------------------------------------------------------------------ whole runs

  datatype Op = OpMalloc(bytes: nat) | OpFree(p: int) | OpRealloc(p: int, bytes: nat)

  predicate Enabled(h: Heap, op: Op) {
    match op
    case OpMalloc(_) => true
    case OpFree(p) => Freeable(h, p)
    case OpRealloc(p, bytes) => Reallocable(h, p, bytes)
  }

  function Apply(h: Heap, op: Op): Heap
    requires Inv(h) && Enabled(h, op)
  {
    match op
    case OpMalloc(bytes) => Malloc(h, bytes).heap
    case OpFree(p) => FreePtr(h, p)
    case OpRealloc(p, bytes) => Realloc(h, p, bytes).heap
  }

  lemma ApplyInv(h: Heap, op: Op)
    requires Inv(h) && Enabled(h, op)
    ensures Inv(Apply(h, op)) && Apply(h, op).memSize == h.memSize
  {
    match op
    case OpMalloc(bytes) => MallocSpec(h, bytes);
    case OpFree(p) => FreePtrSpec(h, p);
    case OpRealloc(p, bytes) =>
      if Allocated(h, p) {
        ReallocSpec(h, p, bytes);
      } else if p == RT_NULL {
        MallocSpec(h, 4 * AlignWords(bytes));
      }
  }

  /** The heap after a run of legal calls; a call that breaks the caller's obligations ends it. */
  function Run(h: Heap, ops: seq<Op>): (g: Heap)
    requires Inv(h)
    ensures Inv(g) && g.memSize == h.memSize
    decreases |ops|
  {
    if ops == [] || !Enabled(h, ops[0]) then h
    else
      ApplyInv(h, ops[0]);
      Run(Apply(h, ops[0]), ops[1..])
  }

  /** Every run from a fresh heap keeps the chain well formed and coalesced, lfree a free block
      or the sentinel and used_mem the summed extents; once nothing is allocated any more,
      the heap is exactly the fresh one except for the recorded maximum. */
  lemma AnyRun(memSize: nat, ops: seq<Op>)
    requires memSize >= MIN_SIZE
    ensures Inv(Init(memSize))
    ensures var g := Run(Init(memSize), ops);
            && Inv(g)
            && (Live(g.chain, HEADER) == {} ==> g == Init(memSize).(maxMem := g.maxMem))
  {
    InitInv(memSize);
    var g := Run(Init(memSize), ops);
    if Live(g.chain, HEADER) == {} {
      NothingAllocatedIsInit(g);
    }
  }

  /** Without rt_realloc, lfree is the lowest free block throughout. */
  lemma {:induction false} RunLowest(h: Heap, ops: seq<Op>)
    requires Inv(h) && LowestFree(h)
    requires forall k | 0 <= k < |ops| :: !ops[k].OpRealloc?
    ensures LowestFree(Run(h, ops))
    decreases |ops|
  {
    if ops != [] && Enabled(h, ops[0]) {
      ApplyInv(h, ops[0]);
      match ops[0] {
        case OpMalloc(bytes) => MallocLowest(h, bytes);
        case OpFree(p) => if p != RT_NULL { FreeLowest(h, Owner(h, p)); }
        case OpRealloc(_, _) =>
      }
      RunLowest(Apply(h, ops[0]), ops[1..]);
    }
  }

  /** The largest used_mem one call reaches: a moving rt_realloc holds both blocks for a while. */
  function Peak(h: Heap, op: Op): int
    requires Inv(h) && Enabled(h, op)
  {
    match op
    case OpMalloc(bytes) => Malloc(h, bytes).heap.usedMem
    case OpFree(p) => h.usedMem
    case OpRealloc(p, bytes) =>
      var words := AlignWords(bytes);
      if words == 0 || words > h.memSize || (p != RT_NULL && !Allocated(h, p)) then h.usedMem
      else if p != RT_NULL && words <= Room(h.chain, HEADER, Owner(h, p)) &&
              (words == Room(h.chain, HEADER, Owner(h, p)) || Cuttable(h.chain, Owner(h, p), words)) then h.usedMem
      else Malloc(h, 4 * words).heap.usedMem
  }

  function RunPeak(h: Heap, ops: seq<Op>): int
    requires Inv(h)
    decreases |ops|
  {
    if ops == [] || !Enabled(h, ops[0]) then h.usedMem
    else
      ApplyInv(h, ops[0]);
      Max(Peak(h, ops[0]), RunPeak(Apply(h, ops[0]), ops[1..]))
  }

  lemma ApplyMax(h: Heap, op: Op)
    requires Inv(h) && Enabled(h, op)
    ensures Apply(h, op).maxMem == Max(h.maxMem, Peak(h, op))
    ensures Apply(h, op).usedMem <= Peak(h, op)
  {
    match op
    case OpMalloc(bytes) => MallocMax(h, bytes);
    case OpFree(p) => FreePtrSpec(h, p);
    case OpRealloc(p, bytes) =>
      if Allocated(h, p) {
        ReallocMax(h, p, bytes);
      } else if p == RT_NULL {
        MallocMax(h, 4 * AlignWords(bytes));
      }
  }

  lemma ReallocMax(h: Heap, p: int, bytes: nat)
    requires Inv(h) && Allocated(h, p)
    ensures var r, peak := Realloc(h, p, bytes).heap, Peak(h, OpRealloc(p, bytes));
            r.maxMem == Max(h.maxMem, peak) && r.usedMem <= peak
  {
    var words, i := AlignWords(bytes), Owner(h, p);
    if words == 0 {
      FreePtrSpec(h, p);
    } else if words <= h.memSize {
      AllocatedInside(h, p);
      if Cuttable(h.chain, i, words) {
        ShrinkStats(h, i, words);
      } else if words != Room(h.chain, HEADER, i) {
        MoveStats(h, p, words);
      }
    }
  }

  lemma ShrinkStats(h: Heap, i: nat, words: nat)
    requires Inv(h) && Cuttable(h.chain, i, words)
    ensures var g := Shrink(h, i, words); g.maxMem == h.maxMem && g.usedMem <= h.usedMem
  {
    CutTailShape(h, i, words);
    PlugHolesSpec(CutTail(h, i, words), i + 1);
  }

  lemma MoveStats(h: Heap, p: int, words: nat)
    requires Inv(h) && Allocated(h, p) && 0 < words
    ensures var m := Malloc(h, 4 * words).heap;
            && m.maxMem == Max(h.maxMem, m.usedMem)
            && Allocated(m, p) && FreePtr(m, p).maxMem == m.maxMem && FreePtr(m, p).usedMem <= m.usedMem
            && (Malloc(h, 4 * words).ptr == RT_NULL ==> m == h)
  {
    MallocMax(h, 4 * words);
    MallocKeepsArea(h, 4 * words, p);
    assert Inv(Malloc(h, 4 * words).heap) by { MallocSpec(h, 4 * words); }
    FreePtrSpec(Malloc(h, 4 * words).heap, p);
  }

  lemma MallocMax(h: Heap, bytes: nat)
    requires Inv(h)
    ensures Malloc(h, bytes).heap.maxMem == Max(h.maxMem, Malloc(h, bytes).heap.usedMem)
  {
  }

  /** max_mem is the running maximum of used_mem over the whole run. */
  lemma {:induction false} RunMax(h: Heap, ops: seq<Op>)
    requires Inv(h)
    ensures Run(h, ops).maxMem == Max(h.maxMem, RunPeak(h, ops))
    decreases |ops|
  {
    if ops != [] && Enabled(h, ops[0]) {
      ApplyInv(h, ops[0]);
      ApplyMax(h, ops[0]);
      RunMax(Apply(h, ops[0]), ops[1..]);
    }
  }

  // ------------------------------------------------------------------ other threads in between

  predicate Touches(op: Op, p: int) {
    match op
    case OpMalloc(_) => false
    case OpFree(q) => q == p
    case OpRealloc(q, _) => q == p
  }

  lemma StaysAllocated(h: Heap, g: Heap, p: int)
    requires Inv(h) && Inv(g) && Allocated(h, p)
    requires AreaAt(h.chain, HEADER, p) in Live(h.chain, HEADER) ==> AreaAt(h.chain, HEADER, p) in Live(g.chain, HEADER)
    ensures Allocated(g, p) && AreaAt(g.chain, HEADER, p) == AreaAt(h.chain, HEADER, p)
  {
    AreaStays(h.chain, g.chain, HEADER, g.End(), p);
  }

  /** A call on other pointers leaves p allocated, where it is and as large as it is. */
  lemma OthersKeepArea(h: Heap, op: Op, p: int)
    requires Inv(h) && Enabled(h, op) && Allocated(h, p) && !Touches(op, p)
    ensures Inv(Apply(h, op)) && Allocated(Apply(h, op), p) && AreaAt(Apply(h, op).chain, HEADER, p) == AreaAt(h.chain, HEADER, p)
  {
    hide Live, Inv, Malloc, FreePtr, Resize;
    ApplyInv(h, op);
    match op
    case OpMalloc(bytes) => MallocKeepsArea(h, bytes, p);
    case OpFree(q) => FreePtrSpec(h, q); StaysAllocated(h, Apply(h, op), p);
    case OpRealloc(q, bytes) =>
      if Allocated(h, q) {
        ReallocSpec(h, q, bytes);
        StaysAllocated(h, Apply(h, op), p);
      } else if q == RT_NULL {
        FreePtrSpec(h, q);
        MallocKeepsArea(h, 4 * AlignWords(bytes), p);
      }
  }

  lemma {:induction false} RunKeepsArea(h: Heap, ops: seq<Op>, p: int)
    requires Inv(h) && Allocated(h, p) && forall op | op in ops :: !Touches(op, p)
    ensures Allocated(Run(h, ops), p) && AreaAt(Run(h, ops).chain, HEADER, p) == AreaAt(h.chain, HEADER, p)
    decreases |ops|
  {
    if ops != [] && Enabled(h, ops[0]) {
      assert ops[0] in ops;
      OthersKeepArea(h, ops[0], p);
      hide Inv, Apply, IndexOf;
      RunKeepsArea(Apply(h, ops[0]), ops[1..], p);
    }
  }

  /** The moving rt_realloc lets go of the lock before and after its copy.  Whatever other threads
      do to other pointers there, old and new block stay where they are until the old one is freed,
      and freeing it then gives back exactly its area. */
  lemma MoveAmongOthers(h: Heap, p: int, words: nat, before: seq<Op>, after: seq<Op>)
    requires Inv(h) && Allocated(h, p) && Malloc(h, 4 * words).ptr != RT_NULL
    requires forall op | op in before + after :: !Touches(op, p) && !Touches(op, Malloc(h, 4 * words).ptr)
    ensures Inv(Malloc(h, 4 * words).heap)
    ensures var m, r := Malloc(h, 4 * words).heap, Malloc(h, 4 * words).ptr;
            var b := Run(m, before);
            var g := Run(b, after);
            && Allocated(m, r) && Allocated(b, p) && Allocated(b, r) && Allocated(g, p) && Allocated(g, r) && r != p
            && AreaAt(b.chain, HEADER, p) == AreaAt(g.chain, HEADER, p) == AreaAt(h.chain, HEADER, p)
            && AreaAt(b.chain, HEADER, r) == AreaAt(g.chain, HEADER, r) == AreaAt(m.chain, HEADER, r)
            && Inv(FreePtr(g, p)) && Live(FreePtr(g, p).chain, HEADER) == Live(g.chain, HEADER) - {AreaAt(h.chain, HEADER, p)}
  {
    hide Live, Malloc, FreePtr, IndexOf, Run, Inv, Touches;
    MallocSpec(h, 4 * words);
    var m, r := Malloc(h, 4 * words).heap, Malloc(h, 4 * words).ptr;
    MallocKeepsArea(h, 4 * words, p);
    NewPointer(h, 4 * words);
    var b := Run(m, before);
    assert forall op | op in before :: op in before + after;
    assert forall op | op in after :: op in before + after;
    RunKeepsArea(m, before, p);
    RunKeepsArea(m, before, r);
    RunKeepsArea(b, after, p);
    RunKeepsArea(b, after, r);
    FreedArea(Run(b, after), p);
  }

  lemma NewPointer(h: Heap, bytes: nat)
    requires Inv(h) && Malloc(h, bytes).ptr != RT_NULL
    ensures Allocated(Malloc(h, bytes).heap, Malloc(h, bytes).ptr) && !Allocated(h, Malloc(h, bytes).ptr)
  {
    MallocSpec(h, bytes);
    var m, r := Malloc(h, bytes).heap, Malloc(h, bytes).ptr;
    hide Malloc;
    var len :| Live(m.chain, HEADER) == Live(h.chain, HEADER) + {(r, len)};
    hide Live, IndexOf;
    AreaIsInUse(m.chain, HEADER, m.End(), (r, len));
  }

  lemma FreedArea(h: Heap, p: int)
    requires Inv(h) && Allocated(h, p)
    ensures Inv(FreePtr(h, p)) && Live(FreePtr(h, p).chain, HEADER) == Live(h.chain, HEADER) - {AreaAt(h.chain, HEADER, p)}
  {
    hide Live;
    FreePtrSpec(h, p);
    AllocatedInside(h, p);
  }
}
