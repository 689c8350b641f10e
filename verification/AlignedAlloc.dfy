/** Aligned allocation on top of the small-memory heap: the block is over-allocated, an aligned
    address inside it is handed out, and the word in front of that address remembers the
    block.  Pointers here are byte addresses; `base` is the address of the heap's first word. */
module AlignedAlloc {
  import opened BlockChain
  import opened HeapWords
  import opened SmallHeapModel
  import SmallHeap

  const WORD: nat := 4          // sizeof(void *)
  const NULL_ADDRESS: nat := 0

  ghost predicate PowerOfTwo(n: nat)
    decreases n
  {
    n == 1 || (n > 1 && n % 2 == 0 && PowerOfTwo(n / 2))
  }

  /** Round up to the pointer size: (n + 3) & ~3. */
  function RoundWord(n: nat): nat {
    (n + WORD - 1) / WORD * WORD
  }

  /** Bytes requested from the heap for `size` bytes aligned to `align`. */
  function Gross(size: nat, align: nat): nat {
    RoundWord(size) + RoundWord(align)
  }

  /** The address handed out for the block at `ptr`.  For a power of two `align`,
      masking with align - 1 is the remainder modulo align. */
  function AlignedAddress(ptr: nat, align: nat): nat
    requires align > 0
  {
    if ptr % align == 0 then ptr + align
    else ptr + (align - 1) - (ptr + (align - 1)) % align
  }

  lemma RoundWordOfAlign(align: nat)
    requires PowerOfTwo(align) && align >= WORD
    ensures align % WORD == 0 && RoundWord(align) == align
  {
    assert PowerOfTwo(align / 2) && (align / 2 > 1 ==> align / 2 % 2 == 0);
  }

  lemma ModAdd(a: nat, b: nat, m: nat)
    requires m > 0 && b < m && a % m != 0 && b == m - 1
    ensures (a + b) % m == a % m - 1
  {
    assert a == m * (a / m) + a % m;
    assert a + b == m * (a / m + 1) + (a % m - 1);
    ModUnique(a + b, a / m + 1, a % m - 1, m);
  }

  lemma Multiples(m: int, d: int)
    requires m > 0
    ensures m * d >= m || m * d <= -m || d == 0
  {
    assert d > 0 ==> m * d >= m * 1;
    assert d < 0 ==> m * d <= m * -1;
  }

  lemma ModUnique(x: int, q: int, r: int, m: nat)
    requires m > 0 && 0 <= r < m && x == m * q + r
    ensures x % m == r
  {
    Multiples(m, x / m - q);
    assert x == m * (x / m) + x % m;
    assert m * (x / m - q) == r - x % m;
  }

  lemma ModStep(a: nat, m: nat, w: nat)
    requires m > 0 && w > 0 && m % w == 0 && a % w == 0
    ensures (a % m) % w == 0
  {
    var q, t := a / m, m / w;
    assert m == w * t;
    assert a == m * q + a % m;
    assert a == w * (a / w);
    assert a % m == w * (a / w) - w * t * q == w * (a / w - t * q);
    ModUnique(a % m, a / w - t * q, 0, w);
  }

  /** The address is aligned, leaves room for the hidden word behind the block's start, and
      the requested bytes end inside the block. */
  lemma Placement(ptr: nat, size: nat, align: nat)
    requires PowerOfTwo(align) && align >= WORD && ptr % WORD == 0
    ensures var p := AlignedAddress(ptr, align);
            && p % align == 0
            && p % WORD == 0
            && ptr + WORD <= p
            && p + size <= ptr + Gross(size, align)
  {
    RoundWordOfAlign(align);
    if ptr % align == 0 {
      PlacementBehind(ptr, align);
    } else {
      PlacementBetween(ptr, align);
    }
  }

  lemma PlacementBehind(ptr: nat, align: nat)
    requires align % WORD == 0 && align > 0 && ptr % WORD == 0 && ptr % align == 0
    ensures (ptr + align) % align == 0 && (ptr + align) % WORD == 0
  {
    ModUnique(ptr + align, ptr / align + 1, 0, align);
    ModUnique(ptr + align, ptr / WORD + align / WORD, 0, WORD);
  }

  lemma PlacementBetween(ptr: nat, align: nat)
    requires align % WORD == 0 && align > 0 && ptr % WORD == 0 && ptr % align != 0
    ensures var p := AlignedAddress(ptr, align);
            p % align == 0 && p % WORD == 0 && ptr + WORD <= p < ptr + align
  {
    var r := ptr % align;
    ModAdd(ptr, align - 1, align);
    ModStep(ptr, align, WORD);
    var p := ptr + align - r;
    assert p == AlignedAddress(ptr, align);
    assert p == align * (ptr / align + 1);
    ModUnique(p, ptr / align + 1, 0, align);
    ModUnique(p, ptr / WORD + align / WORD - r / WORD, 0, WORD);
  }

  /** Index of the word in front of address p. */
  function HiddenIndex(base: nat, p: nat): int {
    (p - WORD - base) / WORD
  }

  /** Address p was handed out for allocated area x: aligned, with its hidden word and `size`
      bytes inside x, and the hidden word naming x. */
  ghost predicate AlignedIn(mem: seq<int>, base: nat, p: nat, size: nat, align: nat, x: (nat, int)) {
    && align > 0 && p % align == 0
    && p % WORD == 0 && base % WORD == 0
    && base + WORD * x.0 <= p - WORD
    && p + size <= base + WORD * (x.0 + x.1)
    && 0 <= HiddenIndex(base, p) < |mem|
    && mem[HiddenIndex(base, p)] == base + WORD * x.0
  }

  /** rt_malloc_align: alignments below the pointer size are rounded up to it. */
  method MallocAlign(h: SmallHeap.Heap, base: nat, size: nat, align: nat) returns (p: nat, ghost x: (nat, int))
    requires h.Valid() && base > 0 && base % WORD == 0
    requires PowerOfTwo(align) && Gross(size, align) <= 0xFFFF_FFFC
    modifies h, h.heap
    ensures h.Valid()
    ensures p == NULL_ADDRESS ==> h.Abs() == old(h.Abs()) && h.heap[..] == old(h.heap[..])
    ensures p != NULL_ADDRESS ==>
              && Live(h.chain, HEADER) == old(Live(h.chain, HEADER)) + {x}
              && x !in old(Live(h.chain, HEADER))
              && AlignedIn(h.heap[..], base, p, size, align, x)
    ensures KeepsData(old(h.heap[..]), h.heap[..], old(Live(h.chain, HEADER)))
  {
    RoundedAlign(align);
    p, x := MallocRounded(h, base, size, RoundWord(align));
    if p != NULL_ADDRESS { AlignedToo(h.heap[..], base, p, size, align, x); }
  }

  lemma RoundedAlign(align: nat)
    requires PowerOfTwo(align)
    ensures PowerOfTwo(RoundWord(align)) && RoundWord(align) >= WORD && RoundWord(RoundWord(align)) == RoundWord(align)
    ensures align >= WORD ==> RoundWord(align) == align
    ensures align < WORD ==> RoundWord(align) == WORD && (align == 1 || align == 2)
  {
    if align >= WORD {
      RoundWordOfAlign(align);
    } else {
      assert PowerOfTwo(2) && PowerOfTwo(4);
      assert align == 3 ==> !PowerOfTwo(align);
    }
  }

  lemma AlignedToo(mem: seq<int>, base: nat, p: nat, size: nat, align: nat, x: (nat, int))
    requires PowerOfTwo(align) && AlignedIn(mem, base, p, size, RoundWord(align), x)
    ensures AlignedIn(mem, base, p, size, align, x)
  {
    RoundedAlign(align);
  }

  method MallocRounded(h: SmallHeap.Heap, base: nat, size: nat, align: nat) returns (p: nat, ghost x: (nat, int))
    requires h.Valid() && base > 0 && base % WORD == 0
    requires PowerOfTwo(align) && align >= WORD && Gross(size, align) <= 0xFFFF_FFFC
    modifies h, h.heap
    ensures h.Valid()
    ensures p == NULL_ADDRESS ==> h.Abs() == old(h.Abs()) && h.heap[..] == old(h.heap[..])
    ensures p != NULL_ADDRESS ==>
              && Live(h.chain, HEADER) == old(Live(h.chain, HEADER)) + {x}
              && x !in old(Live(h.chain, HEADER))
              && AlignedIn(h.heap[..], base, p, size, align, x)
    ensures KeepsData(old(h.heap[..]), h.heap[..], old(Live(h.chain, HEADER)))
  {
    hide Live, Total, IndexOf;
    ghost var g, was := h.Abs(), h.heap[..];
    p, x := NULL_ADDRESS, (0, 0);
    var alignSize := RoundWord(size) + RoundWord(align);
    assert alignSize == Gross(size, align) && alignSize % WORD == 0 by { GrossAligned(size, align); }
    var ptr := h.Malloc(alignSize);
    if ptr != RT_NULL {
      x := FreshArea(g, alignSize);
      p := PlaceKeeping(h, base, ptr, size, align, x, g, was);
    }
  }

  method PlaceKeeping(h: SmallHeap.Heap, base: nat, ptr: nat, size: nat, align: nat,
                      ghost x: (nat, int), ghost g: Heap, ghost was: seq<int>) returns (p: nat)
    requires h.Valid() && base > 0 && base % WORD == 0 && PowerOfTwo(align) && align >= WORD
    requires x.0 == ptr && WORD * x.1 >= Gross(size, align)
    requires Live(h.chain, HEADER) == Live(g.chain, HEADER) + {x} && x !in Live(g.chain, HEADER)
    requires KeepsData(was, h.heap[..], Live(g.chain, HEADER))
    modifies h.heap
    ensures h.Valid() && h.Abs() == old(h.Abs())
    ensures p != NULL_ADDRESS && AlignedIn(h.heap[..], base, p, size, align, x)
    ensures KeepsData(was, h.heap[..], Live(g.chain, HEADER))
  {
    hide Live, Total, IndexOf;
    ghost var mid := h.heap[..];
    p := PlaceIn(h, base, ptr, size, align, x);
    PlacedKeeps(h.Abs(), g, was, mid, h.heap[..], HiddenIndex(base, p), base + WORD * ptr, x);
  }

  lemma GrossAligned(size: nat, align: nat)
    ensures Gross(size, align) % WORD == 0
  {
  }

  lemma PlacedKeeps(m: Heap, h: Heap, was: seq<int>, mid: seq<int>, now: seq<int>, k: int, value: int, x: (nat, int))
    requires Tiled(m.chain, HEADER, m.End()) && x.0 <= k < x.0 + x.1 && k < |mid|
    requires Live(m.chain, HEADER) == Live(h.chain, HEADER) + {x} && x !in Live(h.chain, HEADER)
    requires KeepsData(was, mid, Live(h.chain, HEADER)) && now == mid[k := value]
    ensures KeepsData(was, now, Live(h.chain, HEADER))
  {
    StoreKeeps(m, h, mid, k, value, x);
    KeptTwice(was, mid, now, Live(h.chain, HEADER), Live(h.chain, HEADER), Live(h.chain, HEADER));
  }

  /** Choose the aligned address inside block ptr and leave the hidden word in front of it. */
  method PlaceIn(h: SmallHeap.Heap, base: nat, ptr: nat, size: nat, align: nat, ghost x: (nat, int)) returns (p: nat)
    requires h.Valid() && base > 0 && base % WORD == 0 && PowerOfTwo(align) && align >= WORD
    requires x in Live(h.chain, HEADER) && x.0 == ptr && WORD * x.1 >= Gross(size, align)
    modifies h.heap
    ensures h.Valid() && h.Abs() == old(h.Abs())
    ensures p != NULL_ADDRESS && AlignedIn(h.heap[..], base, p, size, align, x)
    ensures x.0 <= HiddenIndex(base, p) < x.0 + x.1 && HiddenIndex(base, p) < h.heap.Length
    ensures h.heap[..] == old(h.heap[..])[HiddenIndex(base, p) := base + WORD * ptr]
  {
    var address := base + WORD * ptr;
    p := AlignedAddress(address, RoundWord(align));
    PlacementIn(base, ptr, size, align, x);
    h.Store(HiddenIndex(base, p), address, x);
  }

  lemma PlacementIn(base: nat, ptr: nat, size: nat, align: nat, x: (nat, int))
    requires base > 0 && base % WORD == 0 && PowerOfTwo(align) && align >= WORD
    requires x.0 == ptr && WORD * x.1 >= Gross(size, align)
    ensures RoundWord(align) > 0
    ensures var p := AlignedAddress(base + WORD * ptr, RoundWord(align));
            && p % align == 0 && p % WORD == 0
            && base + WORD * ptr + WORD <= p && p + size <= base + WORD * (ptr + x.1)
            && x.0 <= HiddenIndex(base, p) < x.0 + x.1
  {
    var address := base + WORD * ptr;
    BlockAddress(base, ptr);
    RoundWordOfAlign(align);
    Placement(address, size, align);
    HiddenInside(base, AlignedAddress(address, align), x, size, align);
  }

  lemma BlockAddress(base: nat, ptr: int)
    requires base % WORD == 0
    ensures (base + WORD * ptr) % WORD == 0
  {
    ModUnique(base + WORD * ptr, base / WORD + ptr, 0, WORD);
  }

  /** The area a successful rt_malloc of `bytes` adds. */
  lemma FreshArea(h: Heap, bytes: nat) returns (x: (nat, int))
    requires Inv(h) && Malloc(h, bytes).ptr != RT_NULL && bytes <= 0xFFFF_FFFC && bytes % WORD == 0
    ensures var m := Malloc(h, bytes);
            && x.0 == m.ptr && WORD * x.1 >= bytes && m.ptr >= 0
            && Live(m.heap.chain, HEADER) == Live(h.chain, HEADER) + {x}
            && x !in Live(h.chain, HEADER)
  {
    hide Live, Total, IndexOf;
    MallocServed(h, bytes);
    x := Area(Malloc(h, bytes).heap.chain, HEADER, Choice(h, bytes));
    if x in Live(h.chain, HEADER) {
      AreaIsInUse(h.chain, HEADER, h.End(), x);
    }
  }

  lemma HiddenInside(base: nat, p: nat, x: (nat, int), size: nat, align: nat)
    requires base % WORD == 0 && p % WORD == 0 && base + WORD * x.0 + WORD <= p
    requires p + size <= base + WORD * x.0 + Gross(size, align) && WORD * x.1 >= Gross(size, align)
    ensures x.0 <= HiddenIndex(base, p) < x.0 + x.1
    ensures p == base + WORD * (HiddenIndex(base, p) + 1)
  {
    assert p - WORD - base == WORD * (p / WORD - 1 - base / WORD);
    ModUnique(p - WORD - base, p / WORD - 1 - base / WORD, 0, WORD);
  }

  lemma StoreKeeps(m: Heap, h: Heap, was: seq<int>, k: nat, value: int, x: (nat, int))
    requires Tiled(m.chain, HEADER, m.End()) && x in Live(m.chain, HEADER) && x.0 <= k < x.0 + x.1 && k < |was|
    requires Live(m.chain, HEADER) == Live(h.chain, HEADER) + {x} && x !in Live(h.chain, HEADER)
    ensures KeepsData(was, was[k := value], Live(h.chain, HEADER))
  {
    forall y, i | y in Live(h.chain, HEADER) && y.0 <= i < y.0 + y.1 && i < |was| ensures was[k := value][i] == was[i] {
      LiveDisjoint(m.chain, HEADER, m.End(), x, y);
    }
  }

  /** rt_free_align: free the block the hidden word names. */
  method FreeAlign(h: SmallHeap.Heap, base: nat, p: nat, ghost size: nat, ghost align: nat, ghost x: (nat, int))
    requires h.Valid() && x in Live(h.chain, HEADER) && AlignedIn(h.heap[..], base, p, size, align, x)
    modifies h, h.heap
    ensures h.Valid() && Live(h.chain, HEADER) == old(Live(h.chain, HEADER)) - {x}
    ensures KeepsData(old(h.heap[..]), h.heap[..], Live(h.chain, HEADER))
  {
    ghost var g := h.Abs();
    AreaIsInUse(g.chain, HEADER, g.End(), x);
    var realPtr := h.heap[HiddenIndex(base, p)];
    FreePtrSpec(g, (realPtr - base) / WORD);
    h.Free((realPtr - base) / WORD);
  }

  /** Allocate aligned, write any word of the user's bytes, free: the allocations are as before. */
  method AlignedSession(h: SmallHeap.Heap, base: nat, size: nat, align: nat, offset: nat, value: int) returns (p: nat)
    requires h.Valid() && base > 0 && base % WORD == 0
    requires PowerOfTwo(align) && Gross(size, align) <= 0xFFFF_FFFC
    requires WORD * offset + WORD <= size
    modifies h, h.heap
    ensures h.Valid() && Live(h.chain, HEADER) == old(Live(h.chain, HEADER))
    ensures KeepsData(old(h.heap[..]), h.heap[..], old(Live(h.chain, HEADER)))
  {
    hide Live, Total, IndexOf;
    ghost var g, was := h.Abs(), h.heap[..];
    ghost var x;
    p, x := MallocAlign(h, base, size, align);
    if p != NULL_ADDRESS {
      ghost var mid := h.heap[..];
      var k := HiddenIndex(base, p) + 1 + offset;
      UserWord(base, p, size, x, offset);
      h.Store(k, value, x);
      StoreKeeps(h.Abs(), g, mid, k, value, x);
      ghost var stored := h.heap[..];
      FreeAlign(h, base, p, size, align, x);
      KeptTwice(was, mid, stored, Live(g.chain, HEADER), Live(g.chain, HEADER), Live(g.chain, HEADER));
      KeptTwice(was, stored, h.heap[..], Live(g.chain, HEADER), Live(h.chain, HEADER), Live(g.chain, HEADER));
    }
  }

  lemma UserWord(base: nat, p: nat, size: nat, x: (nat, int), offset: nat)
    requires base % WORD == 0 && p % WORD == 0 && base + WORD * x.0 <= p - WORD
    requires p + size <= base + WORD * (x.0 + x.1) && WORD * offset + WORD <= size
    ensures x.0 <= HiddenIndex(base, p) + 1 + offset < x.0 + x.1
  {
    assert p - WORD - base == WORD * (p / WORD - 1 - base / WORD);
    ModUnique(p - WORD - base, p / WORD - 1 - base / WORD, 0, WORD);
  }
}
