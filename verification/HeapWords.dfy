/** What the two heap allocators share on the level of words: size rounding, and which words
    an operation may touch. */
module HeapWords {
  import opened BlockChain

  const RT_NULL: int := -1

  /** RT_ALIGN to 4 in 32-bit arithmetic, in words: requests of 2^32 - 3 bytes and more wrap to 0. */
  function AlignWords(bytes: nat): nat {
    ((bytes + 3) % 0x1_0000_0000) / 4
  }

  /** Where nothing wraps, the rounded size holds the bytes. */
  lemma WordsHoldBytes(bytes: nat)
    ensures bytes <= 0xFFFF_FFFC ==> 4 * AlignWords(bytes) >= bytes
  {
  }

  /** Word k belongs to a header of the chain. */
  ghost predicate HeaderWord(c: seq<Block>, hdr: nat, k: int) {
    exists i :: 0 <= i < |c| && c[i].at <= k < c[i].at + hdr
  }

  /** Every word of the given areas is the same in both memories. */
  ghost predicate KeepsData(m: seq<int>, m': seq<int>, areas: set<(nat, int)>) {
    && |m| == |m'|
    && forall x, k | x in areas && x.0 <= k < x.0 + x.1 && k < |m| :: m'[k] == m[k]
  }

  /** The n words at p are found at r afterwards. */
  ghost predicate Carried(was: seq<int>, now: seq<int>, p: int, r: int, n: int) {
    && 0 <= n && 0 <= p && p + n <= |was| && 0 <= r && r + n <= |now|
    && now[r..r + n] == was[p..p + n]
  }

  lemma KeptSubset(m: seq<int>, w: seq<int>, areas: set<(nat, int)>, part: set<(nat, int)>)
    requires KeepsData(m, w, areas) && part <= areas
    ensures KeepsData(m, w, part)
  {
  }

  lemma KeptTwice(m0: seq<int>, m1: seq<int>, m2: seq<int>, a: set<(nat, int)>, b: set<(nat, int)>, part: set<(nat, int)>)
    requires KeepsData(m0, m1, a) && KeepsData(m1, m2, b) && part <= a && part <= b
    ensures KeepsData(m0, m2, part)
  {
  }

  lemma KeptPrefix(m: seq<int>, w: seq<int>, areas: set<(nat, int)>, x: (nat, int), n: nat)
    requires KeepsData(m, w, areas) && x in areas
    requires n <= x.1 && x.0 + n <= |m|
    ensures w[x.0..x.0 + n] == m[x.0..x.0 + n]
  {
  }

  /** Allocated words are no header words. */
  lemma LiveClear(c: seq<Block>, hdr: nat, end: nat, x: (nat, int), k: int)
    requires Tiled(c, hdr, end) && x in Live(c, hdr) && x.0 <= k < x.0 + x.1
    ensures k < end && !HeaderWord(c, hdr, k)
  {
    LiveInside(c, hdr, end, x);
  }

  lemma HeadersOnly(m: seq<int>, m': seq<int>, c: seq<Block>, hdr: nat, end: nat)
    requires Tiled(c, hdr, end) && |m| == |m'| && end <= |m|
    requires forall k | 0 <= k < |m| && !HeaderWord(c, hdr, k) :: m'[k] == m[k]
    ensures KeepsData(m, m', Live(c, hdr))
  {
    forall x, k | x in Live(c, hdr) && x.0 <= k < x.0 + x.1 && k < |m| ensures m'[k] == m[k] {
      LiveClear(c, hdr, end, x, k);
    }
  }

  /** rt_memcpy between two word-aligned ranges that do not overlap: four words at a time, then
      single words (below four, the source goes byte by byte). */
  method CopyWords(heap: array<int>, dst: nat, src: nat, n: nat)
    requires src + n <= dst || dst + n <= src
    requires src + n <= heap.Length && dst + n <= heap.Length
    modifies heap
    ensures heap[dst..dst + n] == old(heap[src..src + n])
    ensures forall k | 0 <= k < heap.Length && !(dst <= k < dst + n) :: heap[k] == old(heap[k])
  {
    hide Copied;
    ghost var was := heap[..];
    CopiedNone(was, dst, src);
    var i := 0;
    while n - i >= 4
      invariant 0 <= i <= n && Copied(heap[..], was, dst, src, i)
    {
      CopyWord(heap, dst, src, i, was);
      CopyWord(heap, dst, src, i + 1, was);
      CopyWord(heap, dst, src, i + 2, was);
      CopyWord(heap, dst, src, i + 3, was);
      i := i + 4;
    }
    while i < n
      invariant 0 <= i <= n && Copied(heap[..], was, dst, src, i)
    {
      CopyWord(heap, dst, src, i, was);
      i := i + 1;
    }
    CopiedAll(heap[..], was, dst, src, n);
  }

  /** The first i words are copied, and nothing else has changed. */
  ghost predicate Copied(now: seq<int>, was: seq<int>, dst: nat, src: nat, i: nat) {
    && |now| == |was| && dst + i <= |was| && src + i <= |was|
    && now[dst..dst + i] == was[src..src + i]
    && forall k | 0 <= k < |was| && !(dst <= k < dst + i) :: now[k] == was[k]
  }

  method CopyWord(heap: array<int>, dst: nat, src: nat, i: nat, ghost was: seq<int>)
    requires dst + i < heap.Length && src + i < heap.Length && Copied(heap[..], was, dst, src, i)
    requires src + i < dst || dst + i <= src
    modifies heap
    ensures Copied(heap[..], was, dst, src, i + 1)
  {
    ghost var now := heap[..];
    assert now[src + i] == was[src + i];
    heap[dst + i] := heap[src + i];
    assert heap[..] == now[dst + i := was[src + i]];
    assert heap[dst..dst + i] == now[dst..dst + i];
    assert heap[dst..dst + (i + 1)] == heap[dst..dst + i] + [was[src + i]];
    assert was[src..src + (i + 1)] == was[src..src + i] + [was[src + i]];
  }

  lemma CopiedNone(was: seq<int>, dst: nat, src: nat)
    requires dst <= |was| && src <= |was|
    ensures Copied(was, was, dst, src, 0)
  {
  }

  lemma CopiedAll(now: seq<int>, was: seq<int>, dst: nat, src: nat, n: nat)
    requires Copied(now, was, dst, src, n)
    ensures |now| == |was| && dst + n <= |was| && src + n <= |was| && now[dst..dst + n] == was[src..src + n]
    ensures forall k | 0 <= k < |was| && !(dst <= k < dst + n) :: now[k] == was[k]
  {
  }
}
