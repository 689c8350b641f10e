/** The small-memory heap on its real representation: one array of words that holds the block
    headers and the user data side by side.  A header is three words: tag (magic and used
    flag), next and prev; next and prev are offsets from the start of the heap.  Every method
    is proved to compute the corresponding function of SmallHeapModel. */
module SmallHeap {
  import opened Numbers
  import opened BlockChain
  import Model = SmallHeapModel
  import opened HeapWords
  import opened SmallHeapModel

  const NEXT: nat := 1
  const PREV: nat := 2
  const HEAP_MAGIC: int := 0x1ea0

  /** First header word: magic in the low half, used in the high half. */
  function Tag(used: bool): int {
    if used then 0x1_0000 + HEAP_MAGIC else HEAP_MAGIC
  }

  function NextOf(c: seq<Block>, i: nat): nat
    requires i < |c|
  {
    if i + 1 < |c| then c[i + 1].at else c[i].at
  }

  function PrevOf(c: seq<Block>, i: nat): nat
    requires i < |c|
  {
    if i > 0 then c[i - 1].at else 0
  }

  /** The header words at block i describe block i; prev of the sentinel may be stale. */
  predicate HeaderAt(mem: seq<int>, c: seq<Block>, i: nat)
    requires i < |c|
  {
    && c[i].at + PREV < |mem|
    && mem[c[i].at] == Tag(c[i].used)
    && mem[c[i].at + NEXT] == NextOf(c, i)
    && (i < |c| - 1 ==> mem[c[i].at + PREV] == PrevOf(c, i))
  }

  ghost predicate Linked(mem: seq<int>, c: seq<Block>) {
    forall i: nat | i < |c| :: HeaderAt(mem, c, i)
  }

  // ------------------------------------------------------------------ header surgery on word sequences

  /** Distinct headers do not overlap. */
  lemma Apart(c: seq<Block>, end: nat, i: nat, j: nat)
    requires Tiled(c, HEADER, end) && i < |c| && j < |c|
    ensures i < j ==> c[i].at + HEADER < c[j].at
    ensures j < i ==> c[j].at + HEADER < c[i].at
  {
  }

  /** Memory after unlinking block k: its left neighbour's next, its right neighbour's prev. */
  function Merged(mem: seq<int>, c: seq<Block>, k: nat): seq<int>
    requires 0 < k < |c| - 1 && c[k - 1].at + NEXT < |mem| && c[k + 1].at + PREV < |mem|
  {
    mem[c[k - 1].at + NEXT := c[k + 1].at][c[k + 1].at + PREV := c[k - 1].at]
  }

  /** Headers at x and y share no word. */
  predicate Clear(x: nat, y: nat) {
    x + HEADER < y || y + HEADER < x
  }

  lemma MergedHeader(mem: seq<int>, c: seq<Block>, k: nat, m: nat)
    requires 0 < k < |c| - 1 && m < |c| - 1
    requires c[k - 1].at + PREV < |mem| && c[k + 1].at + PREV < |mem| && Clear(c[k - 1].at, c[k + 1].at)
    requires var n := if m < k then m else m + 1;
             && HeaderAt(mem, c, n)
             && (n != k - 1 ==> Clear(c[n].at, c[k - 1].at))
             && (n != k + 1 ==> Clear(c[n].at, c[k + 1].at))
    ensures HeaderAt(Merged(mem, c, k), Absorb(c, k), m)
  {
    var n := if m < k then m else m + 1;
    var r := Absorb(c, k);
    assert r[m] == c[n];
    assert NextOf(r, m) == if m == k - 1 then c[k + 1].at else NextOf(c, n);
    assert PrevOf(r, m) == if m == k then c[k - 1].at else PrevOf(c, n);
  }

  lemma MergedLinked(mem: seq<int>, c: seq<Block>, end: nat, k: nat)
    requires Tiled(c, HEADER, end) && Linked(mem, c) && 0 < k < |c| - 1
    ensures c[k - 1].at + PREV < |mem| && c[k + 1].at + PREV < |mem|
    ensures Linked(Merged(mem, c, k), Absorb(c, k))
  {
    assert HeaderAt(mem, c, k - 1) && HeaderAt(mem, c, k + 1);
    var w, r := Merged(mem, c, k), Absorb(c, k);
    forall m: nat | m < |r| ensures HeaderAt(w, r, m) {
      var n := if m < k then m else m + 1;
      assert HeaderAt(mem, c, n);
      Apart(c, end, n, k - 1);
      Apart(c, end, n, k + 1);
      MergedHeader(mem, c, k, m);
    }
  }

  lemma MarkedLinked(mem: seq<int>, c: seq<Block>, end: nat, k: nat, used: bool)
    requires Tiled(c, HEADER, end) && Linked(mem, c) && k < |c|
    ensures c[k].at + PREV < |mem| && Linked(mem[c[k].at := Tag(used)], Mark(c, k, used))
  {
    assert HeaderAt(mem, c, k);
    var w, r := mem[c[k].at := Tag(used)], Mark(c, k, used);
    forall m: nat | m < |r| ensures HeaderAt(w, r, m) {
      assert HeaderAt(mem, c, m);
      Apart(c, end, m, k);
    }
  }

  /** Memory after a free header at x has been inserted behind block k. */
  function Parted(mem: seq<int>, c: seq<Block>, k: nat, x: nat): seq<int>
    requires k < |c| - 1 && c[k].at + NEXT < |mem| && x + PREV < |mem| && c[k + 1].at + PREV < |mem|
  {
    var w := mem[x := Tag(false)][x + NEXT := c[k + 1].at][x + PREV := c[k].at][c[k].at + NEXT := x];
    if k + 1 < |c| - 1 then w[c[k + 1].at + PREV := x] else w
  }

  lemma PartedHeader(mem: seq<int>, c: seq<Block>, k: nat, x: nat, m: nat)
    requires k < |c| - 1 && m <= |c| && m != k + 1
    requires c[k].at + HEADER < x && x + HEADER < c[k + 1].at && c[k + 1].at + PREV < |mem|
    requires var n := if m <= k then m else m - 1;
             && HeaderAt(mem, c, n)
             && (n != k ==> Clear(c[n].at, c[k].at))
             && (n != k + 1 ==> Clear(c[n].at, c[k + 1].at)) && Clear(c[n].at, x)
    ensures HeaderAt(Parted(mem, c, k, x), Split(c, k, Block(x, false)), m)
  {
    var n := if m <= k then m else m - 1;
    var r := Split(c, k, Block(x, false));
    assert r[m] == c[n];
    assert NextOf(r, m) == if m == k then x else NextOf(c, n);
    assert PrevOf(r, m) == if m == k + 2 then x else PrevOf(c, n);
  }

  lemma PartedNew(mem: seq<int>, c: seq<Block>, k: nat, x: nat)
    requires k < |c| - 1
    requires c[k].at + HEADER < x && x + HEADER < c[k + 1].at && c[k + 1].at + PREV < |mem|
    ensures HeaderAt(Parted(mem, c, k, x), Split(c, k, Block(x, false)), k + 1)
  {
    var r := Split(c, k, Block(x, false));
    assert r[k + 1].at == x && NextOf(r, k + 1) == c[k + 1].at && PrevOf(r, k + 1) == c[k].at;
  }

  lemma PartedLinked(mem: seq<int>, c: seq<Block>, end: nat, k: nat, x: nat)
    requires Tiled(c, HEADER, end) && Linked(mem, c) && k < |c| - 1
    requires c[k].at + HEADER < x && x + HEADER < c[k + 1].at
    ensures c[k].at + PREV < |mem| && c[k + 1].at + PREV < |mem|
    ensures Linked(Parted(mem, c, k, x), Split(c, k, Block(x, false)))
  {
    assert HeaderAt(mem, c, k) && HeaderAt(mem, c, k + 1);
    var w, r := Parted(mem, c, k, x), Split(c, k, Block(x, false));
    forall m: nat | m < |r| ensures HeaderAt(w, r, m) {
      if m == k + 1 {
        PartedNew(mem, c, k, x);
      } else {
        var n := if m <= k then m else m - 1;
        assert HeaderAt(mem, c, n);
        Apart(c, end, n, k);
        Apart(c, end, n, k + 1);
        PartedHeader(mem, c, k, x, m);
      }
    }
  }

  lemma MergedKeeps(mem: seq<int>, c: seq<Block>, end: nat, k: nat)
    requires Tiled(c, HEADER, end) && end + PREV < |mem|
    requires 0 < k < |c| - 1 && c[k - 1].at + NEXT < |mem| && c[k + 1].at + PREV < |mem|
    ensures KeepsData(mem, Merged(mem, c, k), Live(c, HEADER))
  {
    assert HeaderWord(c, HEADER, c[k - 1].at + NEXT) && HeaderWord(c, HEADER, c[k + 1].at + PREV);
    HeadersOnly(mem, Merged(mem, c, k), c, HEADER, end);
  }

  lemma MarkedKeeps(mem: seq<int>, c: seq<Block>, end: nat, k: nat, tag: int)
    requires Tiled(c, HEADER, end) && end + PREV < |mem| && k < |c| && c[k].at < |mem|
    ensures KeepsData(mem, mem[c[k].at := tag], Live(c, HEADER))
  {
    assert HeaderWord(c, HEADER, c[k].at);
    HeadersOnly(mem, mem[c[k].at := tag], c, HEADER, end);
  }

  lemma PartedKeeps(mem: seq<int>, c: seq<Block>, end: nat, k: nat, x: nat)
    requires k < |c| - 1 && c[k].at + NEXT < |mem| && x + PREV < |mem| && c[k + 1].at + PREV < |mem|
    requires Tiled(Split(c, k, Block(x, false)), HEADER, end) && end + PREV < |mem|
    ensures KeepsData(mem, Parted(mem, c, k, x), Live(Split(c, k, Block(x, false)), HEADER))
  {
    var r := Split(c, k, Block(x, false));
    assert r[k].at == c[k].at && r[k + 1].at == x && r[k + 2].at == c[k + 1].at;
    assert HeaderWord(r, HEADER, c[k].at + NEXT) && HeaderWord(r, HEADER, c[k + 1].at + PREV);
    assert HeaderWord(r, HEADER, x) && HeaderWord(r, HEADER, x + NEXT) && HeaderWord(r, HEADER, x + PREV);
    HeadersOnly(mem, Parted(mem, c, k, x), r, HEADER, end);
  }

  // ------------------------------------------------------------------ the heap object

  class Heap {
    const memSize: nat
    const heap: array<int>
    var lfree: nat
    var usedMem: int
    var maxMem: int
    ghost var chain: seq<Block>

    ghost function Abs(): Model.Heap
      reads this
    {
      Model.Heap(memSize, chain, lfree, usedMem, maxMem)
    }

    /** The header words describe the chain, which tiles the heap. */
    ghost predicate Chained()
      reads this, heap
    {
      && heap.Length == memSize + 2 * HEADER
      && Tiled(chain, HEADER, memSize + HEADER)
      && Linked(heap[..], chain)
    }

    ghost predicate Valid()
      reads this, heap
    {
      Chained() && Inv(Abs())
    }

    /** The headers of rt_system_heap_init, whatever the size. */
    constructor (memSize: nat)
      ensures Abs() == Init(memSize) && heap.Length == memSize + 2 * HEADER && Linked(heap[..], chain) && fresh(heap)
      ensures memSize >= MIN_SIZE ==> Valid()
      ensures lfree == 0 && usedMem == 0 && maxMem == 0
    {
      this.memSize := memSize;
      heap := new int[memSize + 2 * HEADER];
      lfree, usedMem, maxMem := 0, 0, 0;
      chain := Init(memSize).chain;
      new;
      heap[0], heap[NEXT], heap[PREV] := Tag(false), memSize + HEADER, 0;
      var end := memSize + HEADER;
      heap[end], heap[end + NEXT], heap[end + PREV] := Tag(true), end, end;
      if memSize >= MIN_SIZE { InitInv(memSize); }
    }

    /** Link block k's left neighbour directly to its right one (both merges of plug_holes). */
    method Merge(left: nat, right: nat, ghost k: nat)
      requires Chained()
      requires 0 < k < |chain| - 1 && chain[k - 1].at == left && chain[k].at == right
      modifies heap, this`chain
      ensures Chained() && KeepsData(old(heap[..]), heap[..], old(Live(chain, HEADER)))
      ensures chain == Absorb(old(chain), k)
    {
      ghost var was, end := heap[..], memSize + HEADER;
      assert HeaderAt(was, chain, k);
      MergedLinked(was, chain, end, k);
      var next := heap[right + NEXT];
      heap[left + NEXT] := next;
      heap[next + PREV] := left;
      assert heap[..] == Merged(was, chain, k);
      MergedKeeps(was, chain, end, k);
      AbsorbTiled(chain, HEADER, end, k);
      chain := Absorb(chain, k);
    }

    /** plug_holes: merge free block k with its free neighbours. */
    method PlugHoles(mem: nat, ghost k: nat)
      requires Chained() && CoalescedBut(chain, k)
      requires k < |chain| - 1 && chain[k] == Block(mem, false)
      modifies heap, this`chain, this`lfree
      ensures Chained() && KeepsData(old(heap[..]), heap[..], old(Live(chain, HEADER)))
      ensures Abs() == Model.PlugHoles(old(Abs()), k)
    {
      PlugCoalesced(Abs(), k);
      PlugForward(mem, k);
      PlugBackward(mem, k);
    }

    method PlugForward(mem: nat, ghost k: nat)
      requires Chained() && k < |chain| - 1 && chain[k] == Block(mem, false)
      modifies heap, this`chain, this`lfree
      ensures Chained() && KeepsData(old(heap[..]), heap[..], old(Live(chain, HEADER)))
      ensures Live(chain, HEADER) == old(Live(chain, HEADER))
      ensures Abs() == Model.PlugForward(old(Abs()), k)
      ensures k < |chain| - 1 && chain[k] == Block(mem, false)
    {
      hide Live, Total, IndexOf;
      Neighbours(heap[..], chain, memSize + HEADER, k);
      var nmem := heap[mem + NEXT];
      if mem != nmem && heap[nmem] == Tag(false) && nmem != memSize + HEADER {
        if lfree == nmem {
          lfree := mem;
        }
        AbsorbLive(chain, HEADER, memSize + HEADER, k + 1);
        Merge(mem, nmem, k + 1);
      }
    }

    method PlugBackward(mem: nat, ghost k: nat)
      requires Chained() && k < |chain| - 1 && chain[k] == Block(mem, false)
      modifies heap, this`chain, this`lfree
      ensures Chained() && KeepsData(old(heap[..]), heap[..], old(Live(chain, HEADER)))
      ensures Abs() == Model.PlugBackward(old(Abs()), k)
    {
      Neighbours(heap[..], chain, memSize + HEADER, k);
      var pmem := heap[mem + PREV];
      if pmem != mem && heap[pmem] == Tag(false) {
        if lfree == mem {
          lfree := pmem;
        }
        Merge(pmem, mem, k);
      }
    }

    /** Put a free header at ptr2 into block k. */
    method InsertHeader(mem: nat, ptr2: nat, ghost k: nat)
      requires Chained() && k < |chain| - 1 && chain[k].at == mem
      requires mem + HEADER < ptr2 && ptr2 + HEADER < chain[k + 1].at
      modifies heap, this`chain
      ensures Chained()
      ensures chain == Split(old(chain), k, Block(ptr2, false))
      ensures k + 1 < |chain| - 1 && chain[k + 1] == Block(ptr2, false)
      ensures KeepsData(old(heap[..]), heap[..], Live(chain, HEADER))
    {
      hide Live, Total, IndexOf;
      ghost var was, end, b := heap[..], memSize + HEADER, Block(ptr2, false);
      Neighbours(was, chain, end, k);
      PartedLinked(was, chain, end, k, ptr2);
      SplitTiled(chain, HEADER, end, k, b);
      PartedKeeps(was, chain, end, k, ptr2);
      heap[ptr2] := Tag(false);
      heap[ptr2 + NEXT] := heap[mem + NEXT];
      heap[ptr2 + PREV] := mem;
      heap[mem + NEXT] := ptr2;
      if heap[ptr2 + NEXT] != memSize + HEADER {
        heap[heap[ptr2 + NEXT] + PREV] := ptr2;
      }
      assert heap[..] == Parted(was, chain, k, ptr2);
      chain := Split(chain, k, b);
    }

    method SetUsed(mem: nat, used: bool, ghost k: nat)
      requires Chained() && k < |chain| - 1 && chain[k].at == mem
      modifies heap, this`chain
      ensures Chained()
      ensures chain == Mark(old(chain), k, used)
      ensures KeepsData(old(heap[..]), heap[..], old(Live(chain, HEADER)))
    {
      ghost var was, end := heap[..], memSize + HEADER;
      MarkedLinked(was, chain, end, k, used);
      MarkedKeeps(was, chain, end, k, Tag(used));
      MarkTiled(chain, HEADER, end, k, used);
      heap[mem] := Tag(used);
      assert heap[..] == was[mem := Tag(used)];
      chain := Mark(chain, k, used);
    }

    /** Hand out free block k: split off the remainder if it is worth a block. */
    method Carve(mem: nat, size: nat, ghost k: nat)
      requires Chained() && size >= MIN_SIZE
      requires k < |chain| - 1 && chain[k] == Block(mem, false) && Fits(chain, k, size)
      modifies heap, this`chain, this`usedMem, this`maxMem
      ensures Chained() && KeepsData(old(heap[..]), heap[..], old(Live(chain, HEADER)))
      ensures chain == Model.Carve(old(chain), k, size)
      ensures usedMem == old(usedMem) + chain[k + 1].at - mem && maxMem == Max(old(maxMem), usedMem)
    {
      hide Live, Total, IndexOf, Tiled, Linked;
      var next := ReadNext(mem, k);
      if next - (mem + HEADER) >= size + HEADER + MIN_SIZE {
        SplitAndTake(mem, mem + HEADER + size, k);
        Charge(size + HEADER);
      } else {
        SetUsed(mem, true, k);
        Charge(next - mem);
      }
    }

    method ReadNext(mem: nat, ghost k: nat) returns (next: nat)
      requires Chained() && k < |chain| - 1 && chain[k].at == mem
      ensures next == chain[k + 1].at
    {
      Neighbours(heap[..], chain, memSize + HEADER, k);
      next := heap[mem + NEXT];
    }

    method SplitAndTake(mem: nat, ptr2: nat, ghost k: nat)
      requires Chained() && k < |chain| - 1 && chain[k] == Block(mem, false)
      requires mem + HEADER < ptr2 && ptr2 + HEADER < chain[k + 1].at
      modifies heap, this`chain
      ensures Chained() && KeepsData(old(heap[..]), heap[..], old(Live(chain, HEADER)))
      ensures chain == Mark(Split(old(chain), k, Block(ptr2, false)), k, true)
      ensures k + 1 < |chain| && chain[k + 1].at == ptr2
    {
      hide Live, Total, IndexOf;
      SplitFreeLive(chain, HEADER, memSize + HEADER, k, Block(ptr2, false));
      InsertHeader(mem, ptr2, k);
      SetUsed(mem, true, k);
    }

    /** Book n more words as used. */
    method Charge(n: int)
      modifies this`usedMem, this`maxMem
      ensures usedMem == old(usedMem) + n && maxMem == Max(old(maxMem), usedMem)
    {
      usedMem := usedMem + n;
      if maxMem < usedMem {
        maxMem := usedMem;
      }
    }

    /** Advance lfree from block i to the next free block, or to the sentinel. */
    method AdvanceLfree(ghost i: nat)
      requires Chained() && i < |chain| && chain[i].at == lfree
      modifies this`lfree
      ensures lfree == chain[FirstFree(chain, i)].at
    {
      ghost var j := i;
      while IsUsed(lfree, j) && lfree != memSize + HEADER
        invariant i <= j < |chain| && chain[j].at == lfree
        invariant FirstFree(chain, j) == FirstFree(chain, i)
        decreases |chain| - j
      {
        SentinelAt(chain, memSize + HEADER, j);
        lfree := ReadNext(lfree, j);
        j := j + 1;
      }
      SentinelAt(chain, memSize + HEADER, j);
    }

    /** The used flag of the header at mem. */
    function IsUsed(mem: nat, ghost k: nat): (used: bool)
      requires Chained() && k < |chain| && chain[k].at == mem
      reads this, heap
      ensures used == chain[k].used
    {
      assert HeaderAt(heap[..], chain, k);
      heap[mem] == Tag(true)
    }

    /** rt_malloc: first fit from lfree upwards. */
    method Malloc(bytes: nat) returns (p: int)
      requires Valid()
      modifies this, heap
      ensures Valid() && Outcome(Abs(), p) == Model.Malloc(old(Abs()), bytes)
      ensures p == RT_NULL ==> heap[..] == old(heap[..])
      ensures KeepsData(old(heap[..]), heap[..], old(Live(chain, HEADER)))
    {
      ghost var h := Abs();
      LfreeIndexed(h);
      MallocSpec(h, bytes);
      if bytes == 0 {
        return RT_NULL;
      }
      var size := AlignWords(bytes);
      if size > memSize {
        return RT_NULL;
      }
      if size < MIN_SIZE {
        size := MIN_SIZE;
      }
      var ptr, i := Search(size, IndexOf(chain, lfree));
      if ptr != RT_NULL {
        TakeBlock(ptr, size, i);
        return ptr + HEADER;
      }
      return RT_NULL;
    }

    /** The search loop of rt_malloc: the first block from lfree on that fits below the bound. */
    method Search(size: nat, ghost start: nat) returns (ptr: int, ghost i: nat)
      requires Chained() && start < |chain| && chain[start].at == lfree
      ensures i == FirstFit(chain, start, size, memSize) && i < |chain|
      ensures ptr == if i < |chain| - 1 then chain[i].at else RT_NULL
      ensures i < |chain| - 1 ==> Fits(chain, i, size)
    {
      ptr, i := lfree, start;
      while ptr < memSize - size
        invariant i < |chain| && chain[i].at == ptr
        invariant FirstFit(chain, i, size, memSize) == FirstFit(chain, start, size, memSize)
        decreases |chain| - i
      {
        SentinelAt(chain, memSize + HEADER, i);
        var next := ReadNext(ptr, i);
        if !IsUsed(ptr, i) && next - (ptr + HEADER) >= size {
          return;
        }
        ptr, i := next, i + 1;
      }
      SentinelAt(chain, memSize + HEADER, i);
      ptr, i := RT_NULL, |chain| - 1;
    }

    method TakeBlock(mem: nat, size: nat, ghost k: nat)
      requires Chained() && size >= MIN_SIZE
      requires k < |chain| - 1 && chain[k] == Block(mem, false) && Fits(chain, k, size)
      modifies this, heap
      ensures Chained() && KeepsData(old(heap[..]), heap[..], old(Live(chain, HEADER)))
      ensures Abs() == Grab(old(Abs()), k, size)
    {
      hide Live, Total, IndexOf;
      CarveTiled(chain, memSize + HEADER, k, size);
      Carve(mem, size, k);
      if mem == lfree {
        AdvanceLfree(k);
      }
    }

    /** rt_free. */
    method Free(p: int)
      requires Valid() && Freeable(Abs(), p)
      modifies this, heap
      ensures Valid() && Abs() == FreePtr(old(Abs()), p)
      ensures KeepsData(old(heap[..]), heap[..], Live(chain, HEADER))
    {
      ghost var h, k := Abs(), Owner(Abs(), p);
      FreePtrSpec(h, p);
      if p == RT_NULL {
        return;
      }
      CoalescedRest(chain, k);
      MarkLive(chain, HEADER, memSize + HEADER, k, false);
      Release(p - HEADER, k);
    }

    /** The part of rt_free behind its checks. */
    method Release(mem: nat, ghost k: nat)
      requires Chained() && k < |chain| - 1 && chain[k] == Block(mem, true)
      requires CoalescedBut(Mark(chain, k, false), k)
      modifies this, heap
      ensures Chained() && Abs() == Model.Free(old(Abs()), k)
      ensures KeepsData(old(heap[..]), heap[..], old(Live(Mark(chain, k, false), HEADER)))
    {
      hide Live, Total, IndexOf;
      ghost var h := Abs();
      MarkLive(chain, HEADER, memSize + HEADER, k, false);
      var next := ReadNext(mem, k);
      SetUsed(mem, false, k);
      if mem < lfree {
        lfree := mem;
      }
      usedMem := usedMem - (next - mem);
      assert Abs() == Unmark(h, k);
      PlugHoles(mem, k);
    }

    /** The in-place path of rt_realloc for the block with user pointer p. */
    method CutTail(p: nat, words: nat, ghost k: nat)
      requires Chained() && Cuttable(chain, k, words) && chain[k].at + HEADER == p
      requires CoalescedBut(Split(chain, k, Block(p + words, false)), k + 1)
      modifies this, heap
      ensures Chained() && Abs() == Shrink(old(Abs()), k, words)
      ensures KeepsData(old(heap[..]), heap[..], old(Live(Split(chain, k, Block(p + words, false)), HEADER)))
    {
      hide Live, Total, IndexOf;
      CutHeader(p, words, k);
      PlugHoles(p + words, k + 1);
    }

    method CutHeader(p: nat, words: nat, ghost k: nat)
      requires Chained() && Cuttable(chain, k, words) && chain[k].at + HEADER == p
      modifies this, heap
      ensures Chained() && Abs() == Model.CutTail(old(Abs()), k, words)
      ensures chain == Split(old(chain), k, Block(p + words, false))
      ensures k + 1 < |chain| - 1 && chain[k + 1] == Block(p + words, false)
      ensures KeepsData(old(heap[..]), heap[..], Live(chain, HEADER))
    {
      hide Live, Total, IndexOf;
      var mem := p - HEADER;
      var next := ReadNext(mem, k);
      usedMem := usedMem - (next - mem - HEADER - words);
      InsertHeader(mem, p + words, k);
    }

    /** rt_memcpy into allocated area x. */
    method CopyInto(dst: nat, src: nat, n: nat, ghost x: (nat, int))
      requires Valid() && x in Live(chain, HEADER) && x.0 == dst && n <= x.1
      requires src + n <= dst || dst + x.1 <= src
      requires src + n <= heap.Length
      modifies heap
      ensures Valid() && Abs() == old(Abs())
      ensures Carried(old(heap[..]), heap[..], src, dst, n)
      ensures KeepsData(old(heap[..]), heap[..], Live(chain, HEADER) - {x})
    {
      hide Live, Total, IndexOf;
      ghost var was := heap[..];
      LiveInside(chain, HEADER, memSize + HEADER, x);
      CopyWords(heap, dst, src, n);
      DataWrite(was, heap[..], chain, memSize + HEADER, x);
    }

    /** A program storing a word into memory it owns. */
    method Store(k: nat, value: int, ghost x: (nat, int))
      requires Valid() && x in Live(chain, HEADER) && x.0 <= k < x.0 + x.1
      modifies heap
      ensures Valid() && Abs() == old(Abs())
      ensures k < heap.Length && heap[..] == old(heap[..])[k := value]
    {
      hide Live, Total, IndexOf;
      ghost var was := heap[..];
      LiveInside(chain, HEADER, memSize + HEADER, x);
      heap[k] := value;
      DataWrite(was, heap[..], chain, memSize + HEADER, x);
    }

    /** rt_realloc.  The other allocations keep their contents, and a returned block starts
        with the words the old one held, as many as both have room for. */
    method Realloc(p: int, bytes: nat) returns (r: int)
      requires Valid() && Reallocable(Abs(), p, bytes)
      modifies this, heap
      ensures Valid() && Outcome(Abs(), r) == Model.Realloc(old(Abs()), p, bytes)
      ensures KeepsData(old(heap[..]), heap[..], old(Others(Abs(), p)))
      ensures r == RT_NULL && AlignWords(bytes) > 0 ==> heap[..] == old(heap[..])
      ensures r != RT_NULL && Allocated(old(Abs()), p) ==>
                Carried(old(heap[..]), heap[..], p, r, Min(AlignWords(bytes), SizeOf(old(Abs()), p)))
    {
      var words := AlignWords(bytes);
      if words > memSize {
        return RT_NULL;
      } else if words == 0 {
        FreePtrSpec(Abs(), p);
        Free(p);
        return RT_NULL;
      } else if p == RT_NULL {
        r := Malloc(4 * words);
      } else if p < 0 || p >= memSize + HEADER {
        ghost var h := Abs();
        assert Allocated(h, p) ==> p < h.End() by { if Allocated(h, p) { AllocatedInside(h, p); } }
        r := p;
      } else {
        AlignAgain(bytes);
        r := Resize(p, words);
      }
    }

    /** rt_realloc on a live block and a non-zero size. */
    method Resize(p: nat, words: nat) returns (r: int)
      requires Valid() && Allocated(Abs(), p) && 0 < words && AlignWords(4 * words) == words
      modifies this, heap
      ensures Valid() && Outcome(Abs(), r) == Model.Resize(old(Abs()), p, words)
      ensures KeepsData(old(heap[..]), heap[..], old(Others(Abs(), p)))
      ensures r == RT_NULL ==> heap[..] == old(heap[..])
      ensures r != RT_NULL ==> Carried(old(heap[..]), heap[..], p, r, Min(words, SizeOf(old(Abs()), p)))
    {
      ghost var h, k := Abs(), Owner(Abs(), p);
      LiveIntro(chain, HEADER, k);
      LiveInside(chain, HEADER, memSize + HEADER, Area(chain, HEADER, k));
      var next := ReadNext(p - HEADER, k);
      if next - p == words {
        return p;
      }
      if words + HEADER + MIN_SIZE < next - p {
        ShrinkBlock(p, words, k);
        return p;
      }
      r := Move(p, words, next - p);
    }

    method ShrinkBlock(p: nat, words: nat, ghost k: nat)
      requires Valid() && Cuttable(chain, k, words) && chain[k].at == p - HEADER && k == Owner(Abs(), p)
      modifies this, heap
      ensures Valid() && Abs() == Shrink(old(Abs()), k, words)
      ensures KeepsData(old(heap[..]), heap[..], old(Others(Abs(), p)))
      ensures Carried(old(heap[..]), heap[..], p, p, words)
    {
      hide Live, Total, IndexOf;
      ghost var h, was := Abs(), heap[..];
      CutTailData(h, p, words);
      CutTail(p, words, k);
      CutTailKept(h, was, heap[..], p, words);
    }

    /** The allocate, copy, free path of rt_realloc. */
    method Move(p: nat, words: nat, size: nat) returns (r: int)
      requires Valid() && Allocated(Abs(), p) && 0 < words && AlignWords(4 * words) == words
      requires size == SizeOf(Abs(), p)
      modifies this, heap
      ensures Valid() && Outcome(Abs(), r) == Model.Move(old(Abs()), p, words)
      ensures KeepsData(old(heap[..]), heap[..], old(Others(Abs(), p)))
      ensures r == RT_NULL ==> heap[..] == old(heap[..])
      ensures r != RT_NULL ==> Carried(old(heap[..]), heap[..], p, r, Min(words, size))
    {
      hide Live, Total, IndexOf;
      ghost var h, was := Abs(), heap[..];
      r := Malloc(4 * words);
      if r != RT_NULL {
        CopyOver(p, r, words, size, h, was);
      }
    }

    /** Move after a successful rt_malloc from heap h with memory `was`. */
    method CopyOver(p: nat, r: nat, words: nat, size: nat, ghost h: Model.Heap, ghost was: seq<int>)
      requires Valid() && Inv(h) && Allocated(h, p) && AlignWords(4 * words) == words && size == SizeOf(h, p)
      requires Outcome(Abs(), r) == Model.Malloc(h, 4 * words)
      requires KeepsData(was, heap[..], Live(h.chain, HEADER))
      modifies this, heap
      ensures Valid() && Outcome(Abs(), r) == Model.Move(h, p, words)
      ensures KeepsData(was, heap[..], Others(h, p)) && Carried(was, heap[..], p, r, Min(words, size))
    {
      hide Live, Total, IndexOf;
      ghost var x := MoveReady(h, p, words);
      ghost var mid, live := heap[..], Live(chain, HEADER);
      CopyAndFree(p, r, Min(words, size), x);
      MoveData(h, was, mid, heap[..], live * Live(chain, HEADER) - {x}, p, r, Min(words, size));
    }

    method CopyAndFree(p: nat, r: nat, n: nat, ghost x: (nat, int))
      requires Valid() && Allocated(Abs(), p)
      requires x in Live(chain, HEADER) && x in Live(FreePtr(Abs(), p).chain, HEADER)
      requires x.0 == r && n <= x.1 && (p + n <= r || r + x.1 <= p) && p + n <= heap.Length
      modifies this, heap
      ensures Valid() && Abs() == FreePtr(old(Abs()), p)
      ensures KeepsData(old(heap[..]), heap[..], old(Live(chain, HEADER)) * Live(chain, HEADER) - {x})
      ensures Carried(old(heap[..]), heap[..], p, r, n)
    {
      hide Live, Total, IndexOf, Tiled, Linked, Coalesced;
      CopyInto(r, p, n, x);
      ghost var copied := heap[..];
      Free(p);
      KeptPrefix(copied, heap[..], Live(chain, HEADER), x, n);
    }
  }

  /** The area rt_malloc adds while p is live is not p's. */
  lemma NewArea(h: Model.Heap, p: int, words: nat) returns (x: (nat, int))
    requires Inv(h) && Allocated(h, p) && AlignWords(4 * words) == words && Model.Malloc(h, 4 * words).ptr != RT_NULL
    ensures var m := Model.Malloc(h, 4 * words);
            && Inv(m.heap)
            && Live(m.heap.chain, HEADER) == Live(h.chain, HEADER) + {x}
            && x.0 == m.ptr && x.1 >= words && x !in Live(h.chain, HEADER)
  {
    hide Live, Total, IndexOf, Tiled, Coalesced, Model.Grab, FirstFit;
    var m := Model.Malloc(h, 4 * words);
    MallocServed(h, 4 * words);
    x := Area(m.heap.chain, HEADER, Choice(h, 4 * words));
    if x in Live(h.chain, HEADER) {
      AreaIsInUse(h.chain, HEADER, h.End(), x);
    }
  }

  /** Where the areas stand around the copy of a moving rt_realloc: m after rt_malloc, x new. */
  lemma MovePlan(h: Model.Heap, m: Model.Heap, p: int, x: (nat, int))
    requires Inv(h) && Inv(m) && Allocated(h, p) && Allocated(m, p) && AreaOf(m, p) == AreaOf(h, p)
    requires Live(m.chain, HEADER) == Live(h.chain, HEADER) + {x} && x !in Live(h.chain, HEADER)
    ensures Inv(FreePtr(m, p)) && x in Live(FreePtr(m, p).chain, HEADER)
    ensures Others(h, p) <= Live(h.chain, HEADER)
    ensures Others(h, p) <= Live(m.chain, HEADER) * Live(FreePtr(m, p).chain, HEADER) - {x}
    ensures 0 <= p && p + SizeOf(h, p) <= m.End()
    ensures p + SizeOf(h, p) <= x.0 || x.0 + x.1 <= p
  {
    var area := AreaOf(h, p);
    LiveIntro(h.chain, HEADER, Owner(h, p));
    LiveDisjoint(m.chain, HEADER, m.End(), area, x);
    LiveInside(m.chain, HEADER, m.End(), area);
    FreePtrSpec(m, p);
  }

  lemma MoveReady(h: Model.Heap, p: int, words: nat) returns (x: (nat, int))
    requires Inv(h) && Allocated(h, p) && AlignWords(4 * words) == words && Model.Malloc(h, 4 * words).ptr != RT_NULL
    ensures Allocated(Model.Malloc(h, 4 * words).heap, p)
    ensures var m := Model.Malloc(h, 4 * words).heap;
            var f := FreePtr(m, p);
            && Inv(m) && Inv(f)
            && x in Live(m.chain, HEADER) && x in Live(f.chain, HEADER)
            && x.0 == Model.Malloc(h, 4 * words).ptr && x.1 >= words
            && 0 <= p && p + SizeOf(h, p) <= h.End()
            && (p + SizeOf(h, p) <= x.0 || x.0 + x.1 <= p)
            && Others(h, p) <= Live(m.chain, HEADER) * Live(f.chain, HEADER) - {x}
  {
    x := NewArea(h, p, words);
    MallocKeepsArea(h, 4 * words, p);
    MovePlan(h, Model.Malloc(h, 4 * words).heap, p, x);
  }

  lemma MoveData(h: Model.Heap, was: seq<int>, mid: seq<int>, now: seq<int>,
                 kept: set<(nat, int)>, p: nat, r: nat, n: nat)
    requires Inv(h) && Allocated(h, p) && n <= SizeOf(h, p) && |was| >= h.End()
    requires KeepsData(was, mid, Live(h.chain, HEADER)) && KeepsData(mid, now, kept) && Others(h, p) <= kept
    requires Carried(mid, now, p, r, n)
    ensures KeepsData(was, now, Others(h, p)) && Carried(was, now, p, r, n)
  {
    KeptTwice(was, mid, now, Live(h.chain, HEADER), kept, Others(h, p));
    LiveIntro(h.chain, HEADER, Owner(h, p));
    KeptPrefix(was, mid, Live(h.chain, HEADER), AreaOf(h, p), n);
  }

  function AreaOf(h: Model.Heap, p: int): (nat, int)
    requires Allocated(h, p)
  {
    Area(h.chain, HEADER, Owner(h, p))
  }

  lemma CutTailData(h: Model.Heap, p: nat, words: nat)
    requires Inv(h) && Cuttable(h.chain, Owner(h, p), words)
    ensures var k := Owner(h, p);
            var after := Split(h.chain, k, Block(p + words, false));
            && (p, words) in Live(after, HEADER) && Others(h, p) <= Live(after, HEADER)
            && CoalescedBut(after, k + 1)
            && Inv(Shrink(h, k, words))
            && p + words <= h.End()
  {
    hide Live, Total, IndexOf, Tiled, Coalesced, CoalescedBut;
    var k := Owner(h, p);
    var after := Split(h.chain, k, Block(p + words, false));
    assert CoalescedBut(after, k + 1) by { SplitCoalesced(h.chain, k, Block(p + words, false)); }
    assert Inv(Shrink(h, k, words)) by { ShrinkSpec(h, k, words); }
    assert p + words <= h.End() by { SentinelAt(h.chain, h.End(), k + 1); }
    SplitLive(h.chain, HEADER, h.End(), k, Block(p + words, false));
  }

  lemma CutTailKept(h: Model.Heap, was: seq<int>, now: seq<int>, p: nat, words: nat)
    requires Inv(h) && Cuttable(h.chain, Owner(h, p), words) && h.End() <= |was|
    requires KeepsData(was, now, Live(Split(h.chain, Owner(h, p), Block(p + words, false)), HEADER))
    ensures KeepsData(was, now, Others(h, p)) && Carried(was, now, p, p, words)
  {
    hide Live, Total, IndexOf, Tiled, Coalesced;
    CutTailData(h, p, words);
    KeptPrefix(was, now, Live(Split(h.chain, Owner(h, p), Block(p + words, false)), HEADER), (p, words), words);
  }

  /** Words the block of p holds. */
  function SizeOf(h: Model.Heap, p: int): int
    requires Allocated(h, p)
  {
    Room(h.chain, HEADER, Owner(h, p))
  }

  /** The allocations other than p's. */
  ghost function Others(h: Model.Heap, p: int): set<(nat, int)> {
    if Allocated(h, p) then Live(h.chain, HEADER) - {AreaOf(h, p)} else Live(h.chain, HEADER)
  }

  /** Writing inside one allocated area disturbs no header and no other area. */
  lemma DataWrite(m: seq<int>, w: seq<int>, c: seq<Block>, end: nat, x: (nat, int))
    requires Tiled(c, HEADER, end) && Linked(m, c) && x in Live(c, HEADER) && |m| == |w|
    requires forall k | 0 <= k < |m| && !(x.0 <= k < x.0 + x.1) :: w[k] == m[k]
    ensures Linked(w, c) && KeepsData(m, w, Live(c, HEADER) - {x})
  {
    LiveInside(c, HEADER, end, x);
    forall i: nat | i < |c| ensures HeaderAt(w, c, i) {
      assert HeaderAt(m, c, i);
    }
    forall y, k | y in Live(c, HEADER) - {x} && y.0 <= k < y.0 + y.1 && k < |m| ensures w[k] == m[k] {
      LiveDisjoint(c, HEADER, end, x, y);
    }
  }

  /** The only header at the end offset is the sentinel. */
  lemma SentinelAt(c: seq<Block>, end: nat, j: nat)
    requires Tiled(c, HEADER, end) && j < |c|
    ensures c[j].at == end <==> j == |c| - 1
    ensures c[j].at <= end
  {
    assert j < |c| - 1 ==> c[j].at < c[|c| - 1].at;
  }

  lemma LfreeIndexed(h: Model.Heap)
    requires Inv(h)
    ensures IndexOf(h.chain, h.lfree) < |h.chain|
  {
    var s :| 0 <= s < |h.chain| && h.chain[s].at == h.lfree && (h.chain[s].used ==> s == |h.chain| - 1);
    IndexOfHeader(h.chain, HEADER, h.End(), s);
  }

  /** What following the links of block k reads. */
  lemma Neighbours(mem: seq<int>, c: seq<Block>, end: nat, k: nat)
    requires Tiled(c, HEADER, end) && Linked(mem, c) && k < |c| - 1
    ensures c[k].at + HEADER < c[k + 1].at && c[k + 1].at + PREV < |mem|
    ensures mem[c[k].at] == Tag(c[k].used) && mem[c[k].at + NEXT] == c[k + 1].at
    ensures mem[c[k + 1].at] == Tag(c[k + 1].used) && (c[k + 1].at == end <==> k + 1 == |c| - 1)
    ensures mem[c[k].at + PREV] == if k > 0 then c[k - 1].at else c[k].at
    ensures k > 0 ==> c[k - 1].at < c[k].at && mem[c[k - 1].at] == Tag(c[k - 1].used)
  {
    assert HeaderAt(mem, c, k) && HeaderAt(mem, c, k + 1);
    assert k > 0 ==> HeaderAt(mem, c, k - 1);
    assert k + 1 < |c| - 1 ==> c[k + 1].at < c[|c| - 1].at;
  }

  /** rt_system_heap_init on a region of memory; null is its error return. */
  method SystemHeapInit(begin: nat, end: nat) returns (h: Heap?)
    requires begin < 0x1_0000_0000 && end < 0x1_0000_0000
    ensures h == null <==> RegionWords(begin, end) < 0
    ensures h != null ==> h.Abs() == Init(RegionWords(begin, end)) && fresh(h) && fresh(h.heap)
    ensures h != null && RegionWords(begin, end) >= MIN_SIZE ==> h.Valid()
  {
    var beginAlign, endAlign := AlignWords(begin), end / 4;
    if endAlign > 2 * HEADER && endAlign - 2 * HEADER >= beginAlign {
      h := new Heap(endAlign - beginAlign - 2 * HEADER);
    } else {
      h := null;
    }
  }
}
