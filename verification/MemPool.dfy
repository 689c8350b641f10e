/** The fixed-block memory pool: a chain of free blocks, and threads waiting for one. */
module MemPoolModel {
  import opened Sequences
  import opened WaitList
  import opened Sleepers

  /** The free blocks in the order they will be handed out, and the waiting threads. */
  datatype Store = Store(count: nat, free: seq<nat>, waiters: seq<Tid>)

  datatype Taken = Taken(store: Store, block: int, slept: bool)

  const NULL: int := -1

  /** One pass of the loop of rt_mp_alloc.  A new waiter goes in front of the others. */
  function AllocPass(s: Store, t: Tid, wait: bool): Taken {
    if s.free == [] then
      if !wait then Taken(s, NULL, false) else Taken(s.(waiters := [t] + s.waiters), NULL, true)
    else Taken(s.(free := s.free[1..]), s.free[0], false)
  }

  function FreePass(s: Store, b: nat): Store {
    s.(free := [b] + s.free, waiters := RestOf(s.waiters))
  }

  /** Blocks in ascending order, as initialisation chains them. */
  function Ascending(n: nat): (s: seq<nat>)
    ensures |s| == n && forall k: nat | k < n :: s[k] == k
  {
    seq(n, k => k)
  }

  // ------------------------------------------------------------------ the protocol

  /** `lent` holds the blocks handed out and not given back. */
  datatype Pool = Pool(store: Store, phase: Phases, lent: set<nat>)

  datatype Event = Alloc(t: Tid, wait: bool) | Free(b: nat) | Timeout(t: Tid)

  function Init(count: nat): Pool {
    Pool(Store(count, Ascending(count), []), map[], {})
  }

  /** Callers give back blocks they were given. */
  predicate Can(p: Pool, e: Event) {
    match e
    case Alloc(t, _) => !PhaseOf(p.phase, t).Asleep?
    case Free(b) => b in p.lent
    case Timeout(t) => PhaseOf(p.phase, t).Asleep?
  }

  function Next(p: Pool, e: Event): Pool {
    match e
    case Alloc(t, wait) =>
      var r := AllocPass(p.store, t, wait);
      Pool(r.store, p.phase[t := if r.slept then Asleep else Awake], if r.block >= 0 then p.lent + {r.block} else p.lent)
    case Free(b) => Pool(FreePass(p.store, b), WakeFirst(p.store.waiters, p.phase), p.lent - {b})
    case Timeout(t) => p.(store := p.store.(waiters := Without(p.store.waiters, t)), phase := p.phase[t := Awake])
  }

  /** Every block is either in the free chain, once, or lent out. */
  ghost predicate Partition(count: nat, free: seq<nat>, lent: set<nat>) {
    && Distinct(free)
    && (forall b | b in free :: b < count && b !in lent)
    && (forall b | b in lent :: b < count)
    && (forall b: nat | b < count :: b in free || b in lent)
    && |free| + |lent| == count
  }

  /** While a thread sleeps, every free block is matched by a thread that was woken and has still
      to try again. */
  ghost predicate Inv(p: Pool) {
    && Partition(p.store.count, p.store.free, p.lent)
    && Agree(p.store.waiters, p.phase)
    && (p.store.waiters != [] ==> |p.store.free| <= |WokenSet(p.phase)|)
  }

  lemma InitInv(count: nat)
    ensures Inv(Init(count))
  {
    forall b: nat | b < count ensures b in Ascending(count) {
      assert Ascending(count)[b] == b;
    }
  }

  lemma PartitionTake(count: nat, free: seq<nat>, lent: set<nat>)
    requires Partition(count, free, lent) && free != []
    ensures Partition(count, free[1..], lent + {free[0]})
  {
    var b := free[0];
    assert b in free;
    assert forall x :: x in free <==> x == b || x in free[1..];
    assert |lent + {b}| == |lent| + 1;
  }

  lemma PartitionPut(count: nat, free: seq<nat>, lent: set<nat>, b: nat)
    requires Partition(count, free, lent) && b in lent
    ensures Partition(count, [b] + free, lent - {b})
  {
    assert forall x :: x in [b] + free <==> x == b || x in free;
  }

  lemma AllocKeeps(p: Pool, t: Tid, wait: bool)
    requires Inv(p) && Can(p, Alloc(t, wait))
    ensures Inv(Next(p, Alloc(t, wait)))
  {
    var w := p.store.waiters;
    assert t !in w;
    SleepAgree(w, [t] + w, p.phase, t);
    AwakeAgree(w, p.phase, t);
    if p.store.free != [] { PartitionTake(p.store.count, p.store.free, p.lent); }
    hide Agree, WokenSet, Partition;
    WokenCount(p.phase, t, if AllocPass(p.store, t, wait).slept then Asleep else Awake);
  }

  lemma StepKeeps(p: Pool, e: Event)
    requires Inv(p) && Can(p, e)
    ensures Inv(Next(p, e))
  {
    match e
    case Alloc(t, wait) => AllocKeeps(p, t, wait);
    case Free(b) =>
      PartitionPut(p.store.count, p.store.free, p.lent, b);
      hide Agree, WokenSet, Partition, WakeFirst;
      WakeAgree(p.store.waiters, p.phase);
    case Timeout(t) =>
      hide WokenSet, Partition, Without;
      TimeoutAgree(p.store.waiters, p.phase, t);
  }

  predicate Runs(p: Pool, es: seq<Event>)
    decreases |es|
  {
    es == [] || (Can(p, es[0]) && Runs(Next(p, es[0]), es[1..]))
  }

  function After(p: Pool, es: seq<Event>): Pool
    decreases |es|
  {
    if es == [] then p else After(Next(p, es[0]), es[1..])
  }

  lemma {:induction false} AnyRun(p: Pool, es: seq<Event>)
    requires Inv(p) && Runs(p, es)
    ensures Inv(After(p, es)) && After(p, es).store.count == p.store.count
    decreases |es|
  {
    if es != [] {
      StepKeeps(p, es[0]);
      assert Next(p, es[0]).store.count == p.store.count;
      hide Inv, Next, Can;
      AnyRun(Next(p, es[0]), es[1..]);
    }
  }

  /** From initialisation on: a block handed out is one nobody holds; an allocation fails only
      when every block is lent out; and once the woken threads have run, nobody sleeps beside a
      free block. */
  lemma EveryRunFromInit(count: nat, es: seq<Event>, t: Tid, wait: bool)
    requires Runs(Init(count), es)
    ensures var p := After(Init(count), es); var b := AllocPass(p.store, t, wait).block;
            && (b != NULL ==> 0 <= b < count && b !in p.lent)
            && (b == NULL <==> |p.lent| == count)
            && (WokenSet(p.phase) == {} && |p.lent| < count ==> p.store.waiters == [])
            && (p.lent == {} ==> |p.store.free| == count)
  {
    InitInv(count);
    AnyRun(Init(count), es);
    var p := After(Init(count), es);
    if p.store.free != [] { assert p.store.free[0] in p.store.free; }
    hide WokenSet;
  }

  /** What a pass of the allocation loop answers: the first free block if there is one; without one
      the caller sleeps exactly when it waits, in front of the others, and is then the next that a
      free wakes. */
  lemma AllocAnswers(p: Pool, t: Tid, wait: bool, u: Tid)
    requires Inv(p) && Can(p, Alloc(t, wait))
    ensures var r, a := Next(p, Alloc(t, wait)), AllocPass(p.store, t, wait);
            && (a.block == NULL <==> p.store.free == []) && (a.slept <==> p.store.free == [] && wait)
            && (a.block != NULL ==> a.block >= 0 && p.store.free == [a.block] + r.store.free && r.lent == p.lent + {a.block})
            && (a.block == NULL ==> r.store.free == [] && r.lent == p.lent)
            && r.store.waiters == (if a.slept then [t] + p.store.waiters else p.store.waiters)
            && PhaseOf(r.phase, u) == (if u != t then PhaseOf(p.phase, u) else if a.slept then Asleep else Awake)
  {
    hide Partition, Agree, WokenSet;
  }

  /** What a free answers: the block is the next one to be handed out, and the first waiting thread,
      the one that came last, is woken. */
  lemma FreeAnswers(p: Pool, b: nat, t: Tid, wait: bool, u: Tid)
    requires Inv(p) && Can(p, Free(b))
    ensures var r := Next(p, Free(b));
            && AllocPass(r.store, t, wait).block == b && Next(r, Alloc(t, wait)).store.free == p.store.free
            && r.lent == p.lent - {b}
            && (if p.store.waiters == [] then r.store.waiters == [] && r.phase == p.phase
                else p.store.waiters == [p.store.waiters[0]] + r.store.waiters
                     && PhaseOf(r.phase, u) == if u == p.store.waiters[0] then Woken else PhaseOf(p.phase, u))
  {
    hide Partition, Agree, WokenSet;
  }

  /** A timeout lets the sleeper go and does nothing else. */
  lemma TimeoutAnswers(p: Pool, t: Tid, u: Tid)
    requires Inv(p) && Can(p, Timeout(t))
    ensures var r := Next(p, Timeout(t));
            && Leaves(p.store.waiters, r.store.waiters, t) && r.store.free == p.store.free && r.lent == p.lent
            && PhaseOf(r.phase, u) == if u == t then Awake else PhaseOf(p.phase, u)
  {
    assert t in p.store.waiters;
    WithoutLeaves(p.store.waiters, t);
    hide Without, Partition, WokenSet;
  }

  // ------------------------------------------------------------------ layout

  const WORD: nat := 0x1_0000_0000

  /** RT_ALIGN_DOWN and RT_ALIGN to four bytes, in 32-bit arithmetic. */
  function Down4(n: nat): nat { n - n % 4 }
  function Up4(n: nat): nat { Down4((n + 3) % WORD) }

  /** Bytes from one block to the next; the sum with the header size may wrap around to 0. */
  function Stride(blockSize: nat): nat { if Up4(blockSize) + 4 == WORD then 0 else Up4(blockSize) + 4 }

  /** rt_mp_init divides by the stride. */
  function BlockCount(size: nat, blockSize: nat): nat
    requires Stride(blockSize) > 0
  {
    Quotient(Down4(size), Stride(blockSize))
  }

  function Quotient(a: nat, b: nat): nat
    requires b > 0
  {
    a / b
  }

  /** Where the caller's part of block b starts, behind its four-byte header. */
  function UserStart(blockSize: nat, b: nat): nat { b * Stride(blockSize) + 4 }

  /** A block has room for its header and the asked size exactly for these sizes; for the four
      sizes 0xFFFFFFF9 to 0xFFFFFFFC the stride wraps to 0. */
  lemma StrideFits(blockSize: nat)
    requires blockSize < WORD
    ensures Stride(blockSize) >= blockSize + 4 <==> blockSize <= 0xFFFF_FFF8
    ensures blockSize <= 0xFFFF_FFF8 ==> Stride(blockSize) <= blockSize + 7
    ensures Stride(blockSize) == 0 <==> 0xFFFF_FFF9 <= blockSize <= 0xFFFF_FFFC
    ensures Stride(blockSize) % 4 == 0
  {
  }

  lemma CountFits(size: nat, blockSize: nat)
    requires Stride(blockSize) > 0
    ensures BlockCount(size, blockSize) == Down4(size) / Stride(blockSize) && Down4(size) <= size
  {
    hide Up4, Stride;
  }

  /** There are as many blocks as fit the size rounded down to words. */
  lemma CountIsMost(size: nat, blockSize: nat, n: nat)
    requires Stride(blockSize) > 0
    ensures n <= BlockCount(size, blockSize) <==> n * Stride(blockSize) <= size - size % 4
  {
    hide Up4, Stride;
    CountFits(size, blockSize);
    var a, s := Down4(size), Stride(blockSize);
    assert a == s * (a / s) + a % s;
    if n <= a / s { Product(n, a / s, s); } else { Product(a / s + 1, n, s); }
    assert (a / s + 1) * s == s * (a / s) + s;
  }

  /** Every block's caller part is aligned, is at least as large as asked, lies inside the pool,
      and overlaps neither another block nor its header. */
  lemma Layout(size: nat, blockSize: nat, b: nat, c: nat)
    requires 0 < blockSize <= 0xFFFF_FFF8 && Stride(blockSize) > 0
    requires b < BlockCount(size, blockSize) && c < BlockCount(size, blockSize)
    ensures UserStart(blockSize, b) % 4 == 0
    ensures UserStart(blockSize, b) + blockSize <= size
    ensures b < c ==> UserStart(blockSize, b) + blockSize <= UserStart(blockSize, c) - 4
  {
    hide Up4, Down4, Stride, BlockCount;
    var s, n := Stride(blockSize), BlockCount(size, blockSize);
    StrideFits(blockSize);
    CountFits(size, blockSize);
    Multiples(s, n, Down4(size), b, c);
    var x, y := b * s, c * s;
  }

  lemma Multiples(s: nat, n: nat, size: nat, b: nat, c: nat)
    requires s > 0 && s % 4 == 0 && n == size / s && b < n
    ensures (b * s) % 4 == 0
    ensures b * s + s <= size
    ensures b < c ==> b * s + s <= c * s
  {
    FourTimes(b, s / 4);
    assert s == 4 * (s / 4);
    assert n * s <= size by { assert size == s * n + size % s; }
    Product(b + 1, n, s);
    if b < c { Product(b + 1, c, s); }
    assert (b + 1) * s == b * s + s;
  }

  lemma FourTimes(b: nat, q: nat)
    ensures (b * (4 * q)) % 4 == 0
  {
    assert b * (4 * q) == 4 * (b * q);
  }

  lemma Product(b: nat, c: nat, s: nat)
    requires b <= c
    ensures b * s <= c * s
  {
  }
}

/** The pool's free chain, linked through the block headers. */
module MemPoolObject {
  import opened WaitList
  import opened MemPoolModel
  import opened C = MessageQueue

  /** The header of an allocated block points back to the pool. */
  const POOL: int := -2

  class KernelPool {
    const count: nat
    const header: array<int>
    var blockList: int
    var freeCount: nat
    const waiters: WaitQueue
    ghost var free: seq<nat>

    /** The headers chain the free blocks from block_list on; all other headers point to the pool. */
    ghost predicate Valid()
      reads this, header
    {
      && header.Length == count
      && Chain(header[..], free)
      && blockList == First(free) && freeCount == |free|
      && forall b: nat | b < count && b !in free :: header[b] == POOL
    }

    ghost function State(): Store
      reads this, waiters
    {
      Store(count, free, waiters.list)
    }

    /** rt_mp_init; without a single block it would write outside the pool. */
    constructor (count: nat)
      requires count > 0
      ensures Valid() && fresh(header) && fresh(waiters)
      ensures State() == Init(count).store
    {
      this.count := count;
      header := new int[count];
      waiters := new WaitQueue();
      blockList := 0;
      freeCount := count;
      free := Ascending(count);
      new;
      var offset := 0;
      while offset < count
        invariant 0 <= offset <= count
        invariant forall k: nat | k < offset :: header[k] == k + 1
        modifies header
      {
        header[offset] := offset + 1;
        offset := offset + 1;
      }
      header[offset - 1] := C.NULL;
      assert forall k: nat | k < count :: LinkAt(header[..], free, k);
      forall b: nat | b < count ensures b in free {
        assert free[b] == b;
      }
    }

    /** One pass of the loop of rt_mp_alloc. */
    method Alloc(t: Tid, wait: bool) returns (block: int, slept: bool)
      requires Valid()
      modifies this, header, waiters
      ensures Valid()
      ensures Taken(State(), block, slept) == AllocPass(old(State()), t, wait)
      ensures if old(freeCount) > 0 then old(free) == [block] + free else block == -1 && free == []
      ensures slept <==> old(freeCount) == 0 && wait
      ensures waiters.list == if slept then [t] + old(waiters.list) else old(waiters.list)
    {
      if freeCount == 0 {
        if wait {
          waiters.InsertFirst(t);
        }
        return MemPoolModel.NULL, wait;
      }
      ghost var was := header[..];
      ChainTail(was, free);
      freeCount := freeCount - 1;
      block := blockList;
      blockList := header[block];
      header[block] := POOL;
      assert header[..] == was[block := POOL];
      ChainKept(was, free[1..], block, POOL);
      ghost var b0 := free[0];
      assert forall b :: b in free <==> b == b0 || b in free[1..];
      free := free[1..];
      slept := false;
    }

    /** rt_mp_free of an allocated block: it becomes the first of the chain. */
    method Free(block: nat)
      requires Valid() && block < count && header[block] == POOL && block !in free
      modifies this, header, waiters
      ensures Valid()
      ensures State() == FreePass(old(State()), block)
      ensures free == [block] + old(free)
    {
      ghost var was := header[..];
      ChainPush(was, free, block);
      freeCount := freeCount + 1;
      header[block] := blockList;
      assert header[..] == was[block := blockList];
      blockList := block;
      free := [block] + free;
      if waiters.list != [] {
        var _ := waiters.ResumeFirst();
      }
    }
  }
}
