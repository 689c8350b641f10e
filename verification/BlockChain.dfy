/** Address-ordered block chains: the abstraction shared by the two heap allocators.

    A heap is cut into consecutive blocks, each starting with a header of `hdr` words; the
    block at index i reaches up to the header at index i + 1.  The last element is the
    sentinel at the end of the heap, which is always marked used.  All offsets and sizes
    are counted in 4-byte words, the alignment unit (RT_ALIGN_SIZE) of the kernel. */
module BlockChain {

  datatype Block = Block(at: nat, used: bool)

  /** The chain starts at offset 0, ends in the sentinel at `end`, and leaves every block a
      header and at least one word of payload: together the blocks tile [0, end). */
  ghost predicate Tiled(c: seq<Block>, hdr: nat, end: nat) {
    && |c| >= 2
    && c[0].at == 0
    && c[|c| - 1] == Block(end, true)
    && forall i, j | 0 <= i < j < |c| :: c[i].at + hdr < c[j].at
  }

  /** No two neighbouring blocks are both free. */
  ghost predicate Coalesced(c: seq<Block>) {
    forall i, j | 0 <= i < j < |c| && j == i + 1 :: c[i].used || c[j].used
  }

  /** Words available to the user in block i. */
  function Room(c: seq<Block>, hdr: nat, i: nat): int
    requires i < |c| - 1
  {
    c[i + 1].at - c[i].at - hdr
  }

  /** Index of the block whose header is at `at`; |c| when there is none. */
  function IndexOf(c: seq<Block>, at: int): (i: nat)
    ensures i <= |c|
    ensures i < |c| ==> c[i].at == at
    ensures forall j | 0 <= j < i :: c[j].at != at
  {
    if c == [] then 0
    else if c[0].at == at then 0
    else 1 + IndexOf(c[1..], at)
  }

  /** Summed room of all blocks whose used flag is `used`, not counting the sentinel. */
  function Total(c: seq<Block>, hdr: nat, used: bool): int {
    if |c| <= 1 then 0
    else (if c[0].used == used then Room(c, hdr, 0) else 0) + Total(c[1..], hdr, used)
  }

  /** The allocated areas as (first user word, length) pairs. */
  function Live(c: seq<Block>, hdr: nat): set<(nat, int)> {
    if |c| <= 1 then {}
    else (if c[0].used then {Area(c, hdr, 0)} else {}) + Live(c[1..], hdr)
  }

  /** User area of block i: first word and length. */
  function Area(c: seq<Block>, hdr: nat, i: nat): (nat, int)
    requires i < |c| - 1
  {
    (c[i].at + hdr, Room(c, hdr, i))
  }

  lemma {:induction false} LiveIntro(c: seq<Block>, hdr: nat, i: nat)
    requires i < |c| - 1 && c[i].used
    ensures Area(c, hdr, i) in Live(c, hdr)
  {
    if i > 0 {
      LiveIntro(c[1..], hdr, i - 1);
      SameArea(c[1..], c, hdr, i - 1, i);
    }
  }

  lemma {:induction false} LiveWitness(c: seq<Block>, hdr: nat, x: (nat, int)) returns (i: nat)
    requires x in Live(c, hdr)
    ensures i < |c| - 1 && c[i].used && x == Area(c, hdr, i)
  {
    if c[0].used && x == Area(c, hdr, 0) {
      i := 0;
    } else {
      var k := LiveWitness(c[1..], hdr, x);
      i := k + 1;
      SameArea(c[1..], c, hdr, k, i);
    }
  }

  lemma IndexOfHeader(c: seq<Block>, hdr: nat, end: nat, i: nat)
    requires Tiled(c, hdr, end) && i < |c|
    ensures IndexOf(c, c[i].at) == i
  {
  }

  lemma HeaderOrder(c: seq<Block>, hdr: nat, end: nat, i: nat, j: nat)
    requires Tiled(c, hdr, end) && i < j < |c|
    ensures c[i].at + hdr < c[j].at
  {
  }

  /** The total over a chain splits at any header. */
  lemma {:induction false} TotalSplit(c: seq<Block>, hdr: nat, used: bool, k: nat)
    requires k < |c|
    ensures Total(c, hdr, used) == Total(c[..k + 1], hdr, used) + Total(c[k..], hdr, used)
  {
    if k == 0 {
      assert c[..1] == [c[0]];
      assert c[0..] == c;
    } else {
      TotalSplit(c[1..], hdr, used, k - 1);
      assert c[1..][..k] == c[..k + 1][1..];
      assert c[1..][k - 1..] == c[k..];
    }
  }

  // ------------------------------------------------------------------ edits of a chain

  function Mark(c: seq<Block>, i: nat, used: bool): (r: seq<Block>)
    requires i < |c|
  {
    c[i := Block(c[i].at, used)]
  }

  /** A header at b.at splits block i. */
  function Split(c: seq<Block>, i: nat, b: Block): seq<Block>
    requires i < |c|
  {
    c[..i + 1] + [b] + c[i + 1..]
  }

  /** Block i is absorbed by its left neighbour. */
  function Absorb(c: seq<Block>, i: nat): seq<Block>
    requires i < |c|
  {
    c[..i] + c[i + 1..]
  }

  lemma MarkTiled(c: seq<Block>, hdr: nat, end: nat, i: nat, used: bool)
    requires Tiled(c, hdr, end) && i < |c| - 1
    ensures Tiled(Mark(c, i, used), hdr, end)
  {
  }

  lemma SplitTiled(c: seq<Block>, hdr: nat, end: nat, i: nat, b: Block)
    requires Tiled(c, hdr, end) && i < |c| - 1
    requires c[i].at + hdr < b.at && b.at + hdr < c[i + 1].at
    ensures Tiled(Split(c, i, b), hdr, end)
  {
    var r := Split(c, i, b);
    forall j, k | 0 <= j < k < |r| ensures r[j].at + hdr < r[k].at {
      assert r[j] == if j <= i then c[j] else if j == i + 1 then b else c[j - 1];
      assert r[k] == if k <= i then c[k] else if k == i + 1 then b else c[k - 1];
      assert j < i ==> c[j].at + hdr < c[i].at;
      assert i + 2 < k ==> c[i + 1].at + hdr < c[k - 1].at;
    }
  }

  lemma AbsorbTiled(c: seq<Block>, hdr: nat, end: nat, i: nat)
    requires Tiled(c, hdr, end) && 0 < i < |c| - 1
    ensures Tiled(Absorb(c, i), hdr, end)
  {
    var r := Absorb(c, i);
    assert forall k | 0 <= k < |r| :: r[k] == if k < i then c[k] else c[k + 1];
  }

  /** The total over a chain splits into what lies left of, between and right of two headers. */
  lemma TotalAround(c: seq<Block>, hdr: nat, used: bool, i: nat, j: nat)
    requires i <= j < |c|
    ensures Total(c, hdr, used) ==
            Total(c[..i + 1], hdr, used) + Total(c[i..j + 1], hdr, used) + Total(c[j..], hdr, used)
  {
    TotalSplit(c, hdr, used, j);
    TotalSplit(c[..j + 1], hdr, used, i);
    assert c[..j + 1][..i + 1] == c[..i + 1];
    assert c[..j + 1][i..] == c[i..j + 1];
  }

  /** The flag of the last header does not matter: no block starts there. */
  lemma {:induction false} TotalLastFlag(a: seq<Block>, b: seq<Block>, hdr: nat, used: bool)
    requires |a| == |b| > 0 && a[..|a| - 1] == b[..|b| - 1]
    requires a[|a| - 1].at == b[|b| - 1].at
    ensures Total(a, hdr, used) == Total(b, hdr, used)
  {
    if |a| > 1 {
      assert a[0] == a[..|a| - 1][0] == b[..|b| - 1][0] == b[0];
      assert a[1..][..|a| - 2] == a[..|a| - 1][1..];
      assert b[1..][..|b| - 2] == b[..|b| - 1][1..];
      TotalLastFlag(a[1..], b[1..], hdr, used);
      assert |a| > 2 ==> a[1] == a[..|a| - 1][1] == b[..|b| - 1][1] == b[1];
    }
  }

  lemma TotalPair(c: seq<Block>, hdr: nat, used: bool)
    requires |c| == 2
    ensures Total(c, hdr, used) == if c[0].used == used then Room(c, hdr, 0) else 0
  {
    assert c[1..] == [c[1]];
  }

  lemma TotalTriple(c: seq<Block>, hdr: nat, used: bool)
    requires |c| == 3
    ensures Total(c, hdr, used) ==
            (if c[0].used == used then Room(c, hdr, 0) else 0) + (if c[1].used == used then Room(c, hdr, 1) else 0)
  {
    TotalPair(c[1..], hdr, used);
  }

  lemma MarkTotal(c: seq<Block>, hdr: nat, i: nat, u: bool, used: bool)
    requires i < |c| - 1
    ensures Total(Mark(c, i, u), hdr, used) == Total(c, hdr, used)
            - (if c[i].used == used then Room(c, hdr, i) else 0) + (if u == used then Room(c, hdr, i) else 0)
  {
    var r := Mark(c, i, u);
    TotalAround(c, hdr, used, i, i + 1);
    TotalAround(r, hdr, used, i, i + 1);
    TotalLastFlag(c[..i + 1], r[..i + 1], hdr, used);
    assert c[i + 1..] == r[i + 1..];
    assert c[i..i + 2] == [c[i], c[i + 1]];
    assert r[i..i + 2] == [r[i], c[i + 1]];
    TotalPair([c[i], c[i + 1]], hdr, used);
    TotalPair([r[i], c[i + 1]], hdr, used);
  }

  lemma SplitTotal(c: seq<Block>, hdr: nat, i: nat, b: Block, used: bool)
    requires i < |c| - 1
    ensures Total(Split(c, i, b), hdr, used) == Total(c, hdr, used)
            + (if c[i].used == used then b.at - c[i + 1].at else 0) + (if b.used == used then c[i + 1].at - b.at - hdr else 0)
  {
    var r := Split(c, i, b);
    TotalAround(c, hdr, used, i, i + 1);
    TotalAround(r, hdr, used, i, i + 2);
    assert c[..i + 1] == r[..i + 1];
    assert c[i + 1..] == r[i + 2..];
    assert c[i..i + 2] == [c[i], c[i + 1]];
    assert r[i..i + 3] == [c[i], b, c[i + 1]];
    TotalPair([c[i], c[i + 1]], hdr, used);
    TotalTriple([c[i], b, c[i + 1]], hdr, used);
  }

  lemma AbsorbTotal(c: seq<Block>, hdr: nat, i: nat, used: bool)
    requires 0 < i < |c| - 1
    ensures Total(Absorb(c, i), hdr, used) == Total(c, hdr, used)
            + (if c[i - 1].used == used then c[i + 1].at - c[i].at else 0) - (if c[i].used == used then Room(c, hdr, i) else 0)
  {
    var r := Absorb(c, i);
    assert Split(r, i - 1, c[i]) == c;
    SplitTotal(r, hdr, i - 1, c[i], used);
  }

  lemma MarkLive(c: seq<Block>, hdr: nat, end: nat, i: nat, used: bool)
    requires Tiled(c, hdr, end) && i < |c| - 1
    ensures Live(Mark(c, i, used), hdr) ==
            if used then Live(c, hdr) + {Area(c, hdr, i)} else Live(c, hdr) - {Area(c, hdr, i)}
  {
    var r := Mark(c, i, used);
    var a := Area(c, hdr, i);
    forall x | x in Live(r, hdr) ensures (used && x == a) || (x in Live(c, hdr) && x != a) {
      var k := LiveWitness(r, hdr, x);
      SameArea(c, r, hdr, k, k);
      if k != i { LiveIntro(c, hdr, k); AreasDiffer(c, hdr, end, i, k); }
    }
    forall x | x in Live(c, hdr) && x != a ensures x in Live(r, hdr) {
      var k := LiveWitness(c, hdr, x);
      SameArea(c, r, hdr, k, k);
      LiveIntro(r, hdr, k);
    }
    if used { SameArea(c, r, hdr, i, i); LiveIntro(r, hdr, i); }
  }

  lemma SameArea(c: seq<Block>, r: seq<Block>, hdr: nat, k: nat, m: nat)
    requires k < |c| - 1 && m < |r| - 1
    requires c[k].at == r[m].at && c[k + 1].at == r[m + 1].at
    ensures Area(c, hdr, k) == Area(r, hdr, m)
  {
  }

  lemma AreasDiffer(c: seq<Block>, hdr: nat, end: nat, i: nat, k: nat)
    requires Tiled(c, hdr, end) && i < |c| - 1 && k < |c| - 1 && i != k
    ensures Area(c, hdr, i) != Area(c, hdr, k)
  {
  }

  /** Splitting changes the area of block i if it is allocated, and nothing else. */
  lemma SplitLive(c: seq<Block>, hdr: nat, end: nat, i: nat, b: Block)
    requires Tiled(c, hdr, end) && i < |c| - 1 && !b.used
    ensures Live(Split(c, i, b), hdr) ==
            if c[i].used then
              Live(c, hdr) - {Area(c, hdr, i)} + {(c[i].at + hdr, b.at - c[i].at - hdr)}
            else Live(c, hdr)
  {
    var r := Split(c, i, b);
    var a := Area(c, hdr, i);
    forall x | x in Live(r, hdr) && x != Area(r, hdr, i) ensures x in Live(c, hdr) && x != a {
      SplitLiveBack(c, hdr, end, i, b, x);
    }
    forall x | x in Live(c, hdr) && x != a ensures x in Live(r, hdr) {
      SplitLiveOn(c, hdr, i, b, x);
    }
    if c[i].used {
      LiveIntro(r, hdr, i);
    } else {
      AreaNotLive(c, hdr, end, i);
      SplitAreaNotLive(c, hdr, end, i, b);
    }
  }

  lemma SplitLiveBack(c: seq<Block>, hdr: nat, end: nat, i: nat, b: Block, x: (nat, int))
    requires Tiled(c, hdr, end) && i < |c| - 1 && !b.used
    requires x in Live(Split(c, i, b), hdr) && x != Area(Split(c, i, b), hdr, i)
    ensures x in Live(c, hdr) && x != Area(c, hdr, i)
  {
    var r := Split(c, i, b);
    var m := LiveWitness(r, hdr, x);
    var k := if m < i then m else m - 1;
    SameArea(c, r, hdr, k, m);
    LiveIntro(c, hdr, k);
    AreasDiffer(c, hdr, end, i, k);
  }

  lemma SplitLiveOn(c: seq<Block>, hdr: nat, i: nat, b: Block, x: (nat, int))
    requires i < |c| - 1
    requires x in Live(c, hdr) && x != Area(c, hdr, i)
    ensures x in Live(Split(c, i, b), hdr)
  {
    var r := Split(c, i, b);
    var k := LiveWitness(c, hdr, x);
    var m := if k < i then k else k + 1;
    SameArea(c, r, hdr, k, m);
    LiveIntro(r, hdr, m);
  }

  /** A free block's remaining area is nobody's allocation after the split. */
  lemma SplitAreaNotLive(c: seq<Block>, hdr: nat, end: nat, i: nat, b: Block)
    requires Tiled(c, hdr, end) && i < |c| - 1 && !b.used && !c[i].used
    ensures Area(Split(c, i, b), hdr, i) !in Live(Split(c, i, b), hdr)
  {
    var r := Split(c, i, b);
    if Area(r, hdr, i) in Live(r, hdr) {
      var m := LiveWitness(r, hdr, Area(r, hdr, i));
    }
  }

  lemma AreaNotLive(c: seq<Block>, hdr: nat, end: nat, i: nat)
    requires Tiled(c, hdr, end) && i < |c| - 1 && !c[i].used
    ensures Area(c, hdr, i) !in Live(c, hdr)
  {
    if Area(c, hdr, i) in Live(c, hdr) {
      var k := LiveWitness(c, hdr, Area(c, hdr, i));
      AreasDiffer(c, hdr, end, i, k);
    }
  }

  /** Merging free blocks changes no allocated area. */
  lemma AbsorbLive(c: seq<Block>, hdr: nat, end: nat, i: nat)
    requires Tiled(c, hdr, end) && 0 < i < |c| - 1 && !c[i - 1].used && !c[i].used
    ensures Live(Absorb(c, i), hdr) == Live(c, hdr)
  {
    var r := Absorb(c, i);
    assert Split(r, i - 1, c[i]) == c;
    assert Tiled(r, hdr, end) by { AbsorbTiled(c, hdr, end, i); }
    SplitFreeLive(r, hdr, end, i - 1, c[i]);
  }

  lemma SplitFreeLive(c: seq<Block>, hdr: nat, end: nat, i: nat, b: Block)
    requires Tiled(c, hdr, end) && i < |c| - 1 && !b.used && !c[i].used
    ensures Live(Split(c, i, b), hdr) == Live(c, hdr)
  {
    SplitLive(c, hdr, end, i, b);
  }

  lemma {:induction false} TotalNonNegative(c: seq<Block>, hdr: nat, used: bool)
    requires forall i | 0 <= i < |c| - 1 :: c[i].at + hdr <= c[i + 1].at
    ensures Total(c, hdr, used) >= 0
  {
    if |c| > 1 {
      TotalNonNegative(c[1..], hdr, used);
    }
  }

  /** A block contributes its room: no single area exceeds the total of its kind. */
  lemma {:induction false} RoomWithinTotal(c: seq<Block>, hdr: nat, end: nat, i: nat)
    requires Tiled(c, hdr, end) && i < |c| - 1
    ensures Room(c, hdr, i) <= Total(c, hdr, c[i].used)
  {
    var used := c[i].used;
    TotalSplit(c, hdr, used, i);
    TotalNonNegative(c[..i + 1], hdr, used);
    TotalNonNegative(c[i..][1..], hdr, used);
  }

  /** An allocated area stays inside the heap and clear of every header. */
  lemma LiveInside(c: seq<Block>, hdr: nat, end: nat, a: (nat, int))
    requires Tiled(c, hdr, end) && a in Live(c, hdr)
    ensures hdr <= a.0 && 0 < a.1 && a.0 + a.1 <= end
    ensures forall k | 0 <= k < |c| :: c[k].at + hdr <= a.0 || a.0 + a.1 <= c[k].at
  {
    var i := LiveWitness(c, hdr, a);
    assert i < |c| - 2 ==> c[i + 1].at < c[|c| - 1].at;
    assert i > 0 ==> c[0].at + hdr < c[i].at;
    forall k | 0 <= k < |c| ensures c[k].at + hdr <= a.0 || a.0 + a.1 <= c[k].at {
      assert k > i + 1 ==> c[i + 1].at < c[k].at;
    }
  }

  /** Two allocated areas never overlap: a whole header lies between them. */
  lemma LiveDisjoint(c: seq<Block>, hdr: nat, end: nat, a: (nat, int), b: (nat, int))
    requires Tiled(c, hdr, end)
    requires a in Live(c, hdr) && b in Live(c, hdr) && a != b
    ensures a.0 + a.1 + hdr <= b.0 || b.0 + b.1 + hdr <= a.0
  {
    var i := LiveWitness(c, hdr, a);
    var j := LiveWitness(c, hdr, b);
    if i < j {
      assert i + 1 == j || c[i + 1].at + hdr < c[j].at;
    } else {
      assert j + 1 == i || c[j + 1].at + hdr < c[i].at;
    }
  }

  /** With nothing allocated, coalescing leaves exactly one free block spanning the heap. */
  lemma AllFreeIsOneBlock(c: seq<Block>, hdr: nat, end: nat)
    requires Tiled(c, hdr, end) && Coalesced(c)
    requires Live(c, hdr) == {}
    ensures c == [Block(0, false), Block(end, true)]
  {
    forall i: nat | i < |c| - 1 ensures !c[i].used {
      if c[i].used { LiveIntro(c, hdr, i); }
    }
    assert c[0].used || c[1].used;
  }

  /** A used block absorbing a free one behind it: only its own area changes. */
  lemma AbsorbUsedLive(c: seq<Block>, hdr: nat, end: nat, i: nat)
    requires Tiled(c, hdr, end) && 0 < i < |c| - 1 && c[i - 1].used && !c[i].used
    ensures Live(Absorb(c, i), hdr) ==
            Live(c, hdr) - {Area(c, hdr, i - 1)} + {(c[i - 1].at + hdr, c[i + 1].at - c[i - 1].at - hdr)}
  {
    hide Live, Tiled;
    var r := Absorb(c, i);
    assert Split(r, i - 1, c[i]) == c;
    AbsorbTiled(c, hdr, end, i);
    HeaderOrder(c, hdr, end, i, i + 1);
    SplitUndone(r, hdr, end, i - 1, c[i]);
  }

  /** The allocations before a used block was split, from those after. */
  lemma SplitUndone(c: seq<Block>, hdr: nat, end: nat, i: nat, b: Block)
    requires Tiled(c, hdr, end) && i < |c| - 1 && !b.used && c[i].used && b.at < c[i + 1].at
    ensures Live(c, hdr) == Live(Split(c, i, b), hdr) - {(c[i].at + hdr, b.at - c[i].at - hdr)} + {Area(c, hdr, i)}
  {
    hide Live, Tiled;
    SplitLive(c, hdr, end, i, b);
    LiveIntro(c, hdr, i);
    var cut := (c[i].at + hdr, b.at - c[i].at - hdr);
    LiveStartsOnce(c, hdr, end, i, cut);
    RemoveThenAdd(Live(c, hdr), Live(Split(c, i, b), hdr), Area(c, hdr, i), cut);
  }

  lemma LiveStartsOnce(c: seq<Block>, hdr: nat, end: nat, i: nat, x: (nat, int))
    requires Tiled(c, hdr, end) && i < |c| - 1 && x.0 == c[i].at + hdr && x != Area(c, hdr, i)
    ensures x !in Live(c, hdr)
  {
    if x in Live(c, hdr) {
      var k := LiveWitness(c, hdr, x);
    }
  }

  /** The pointer p, a header's length behind a header, belongs to a used block. */
  predicate InUse(c: seq<Block>, hdr: nat, p: int) {
    var i := IndexOf(c, p - hdr);
    i < |c| - 1 && c[i].used
  }

  /** The area p points to. */
  function AreaAt(c: seq<Block>, hdr: nat, p: int): (nat, int)
    requires InUse(c, hdr, p)
  {
    Area(c, hdr, IndexOf(c, p - hdr))
  }

  lemma AreaIsInUse(c: seq<Block>, hdr: nat, end: nat, x: (nat, int))
    requires Tiled(c, hdr, end) && x in Live(c, hdr)
    ensures InUse(c, hdr, x.0) && x == AreaAt(c, hdr, x.0)
  {
    var i := LiveWitness(c, hdr, x);
    IndexOfHeader(c, hdr, end, i);
  }

  /** A chain that still has p's area still has p pointing to it. */
  lemma AreaStays(c: seq<Block>, d: seq<Block>, hdr: nat, end: nat, p: int)
    requires Tiled(d, hdr, end) && InUse(c, hdr, p)
    requires AreaAt(c, hdr, p) in Live(c, hdr) ==> AreaAt(c, hdr, p) in Live(d, hdr)
    ensures InUse(d, hdr, p) && AreaAt(d, hdr, p) == AreaAt(c, hdr, p)
  {
    LiveIntro(c, hdr, IndexOf(c, p - hdr));
    AreaIsInUse(d, hdr, end, AreaAt(c, hdr, p));
  }

  lemma AddThenRemove<T>(s: set<T>, t: set<T>, u: set<T>, x: T, y: T)
    requires t == s + {y} && u == t - {x} && x != y
    ensures u == s - {x} + {y}
  {
  }

  lemma RemoveThenAdd<T>(s: set<T>, t: set<T>, x: T, y: T)
    requires x in s && y !in s && t == s - {x} + {y}
    ensures s == t - {y} + {x}
  {
  }

  // ------------------------------------------------------------------ free headers

  /** `at` is the header of a free block. */
  predicate IsFree(c: seq<Block>, at: int) {
    var i := IndexOf(c, at);
    i < |c| - 1 && !c[i].used
  }

  lemma IsFreeAt(c: seq<Block>, hdr: nat, end: nat, i: nat)
    requires Tiled(c, hdr, end) && i < |c|
    ensures IsFree(c, c[i].at) <==> i < |c| - 1 && !c[i].used
  {
    IndexOfHeader(c, hdr, end, i);
  }

  lemma MarkIsFree(c: seq<Block>, hdr: nat, end: nat, i: nat, used: bool, at: int)
    requires Tiled(c, hdr, end) && i < |c| - 1
    ensures IsFree(Mark(c, i, used), at) <==> if at == c[i].at then !used else IsFree(c, at)
  {
    var r := Mark(c, i, used);
    MarkTiled(c, hdr, end, i, used);
    IsFreeAt(r, hdr, end, i);
    SameHeaders(c, r, hdr, end, at);
  }

  lemma SameHeaders(c: seq<Block>, r: seq<Block>, hdr: nat, end: nat, at: int)
    requires Tiled(c, hdr, end) && Tiled(r, hdr, end) && |c| == |r|
    requires forall k | 0 <= k < |c| :: c[k].at == r[k].at
    ensures IndexOf(c, at) == IndexOf(r, at)
  {
    var j := IndexOf(c, at);
    if j < |c| { IndexOfHeader(r, hdr, end, j); }
  }

  lemma SplitIsFree(c: seq<Block>, hdr: nat, end: nat, i: nat, b: Block, at: int)
    requires Tiled(c, hdr, end) && i < |c| - 1 && !b.used && Tiled(Split(c, i, b), hdr, end)
    ensures IsFree(Split(c, i, b), at) <==> at == b.at || IsFree(c, at)
  {
    hide Tiled;
    var r := Split(c, i, b);
    assert r[i + 1] == b;
    IndexOfHeader(r, hdr, end, i + 1);
    SplitIndexOf(c, hdr, end, i, b, at);
  }

  /** Where the old headers are after the split. */
  lemma SplitIndexOf(c: seq<Block>, hdr: nat, end: nat, i: nat, b: Block, at: int)
    requires i < |c| - 1 && Tiled(Split(c, i, b), hdr, end)
    ensures var j := IndexOf(c, at);
            var m := if j <= i then j else j + 1;
            && (j < |c| ==> IndexOf(Split(c, i, b), at) == m && Split(c, i, b)[m] == c[j])
            && (j == |c| && at != b.at ==> IndexOf(Split(c, i, b), at) == |c| + 1)
  {
    hide IndexOf, Tiled;
    var r, j := Split(c, i, b), IndexOf(c, at);
    if j < |c| {
      IndexOfHeader(r, hdr, end, if j <= i then j else j + 1);
    }
    assert forall m | 0 <= m < |r| && m != i + 1 :: r[m] == c[if m <= i then m else m - 1];
  }

  lemma AbsorbIsFree(c: seq<Block>, hdr: nat, end: nat, i: nat, at: int)
    requires Tiled(c, hdr, end) && 0 < i < |c| - 1 && !c[i].used
    ensures IsFree(Absorb(c, i), at) <==> IsFree(c, at) && at != c[i].at
  {
    var r := Absorb(c, i);
    assert Split(r, i - 1, c[i]) == c;
    assert Tiled(r, hdr, end) by { AbsorbTiled(c, hdr, end, i); }
    SplitIsFree(r, hdr, end, i - 1, c[i], at);
    if at == c[i].at {
      NotAbsorbed(c, hdr, end, i);
    }
  }

  lemma NotAbsorbed(c: seq<Block>, hdr: nat, end: nat, i: nat)
    requires Tiled(c, hdr, end) && 0 < i < |c| - 1
    ensures IndexOf(Absorb(c, i), c[i].at) == |c| - 1
  {
    hide IndexOf;
    var r := Absorb(c, i);
    assert forall k | 0 <= k < |r| :: r[k] == if k < i then c[k] else c[k + 1];
    assert forall k | 0 <= k < |r| :: r[k].at != c[i].at;
  }

  // ------------------------------------------------------------------ coalescing

  /** Neighbours are not both free, except possibly around block i. */
  ghost predicate CoalescedBut(c: seq<Block>, i: nat) {
    forall j, k | 0 <= j < k < |c| && k == j + 1 && j != i && k != i :: c[j].used || c[k].used
  }

  lemma CoalescedRest(c: seq<Block>, i: nat)
    requires Coalesced(c) && i < |c|
    ensures CoalescedBut(Mark(c, i, false), i)
  {
  }

  lemma SplitCoalesced(c: seq<Block>, i: nat, b: Block)
    requires Coalesced(c) && i < |c| - 1
    ensures CoalescedBut(Split(c, i, b), i + 1)
  {
    var r := Split(c, i, b);
    forall j, k | 0 <= j < k < |r| && k == j + 1 && j != i + 1 && k != i + 1 ensures r[j].used || r[k].used {
      if j > i {
        assert r[j] == c[j - 1] && r[k] == c[k - 1];
        assert c[j - 1].used || c[k - 1].used;
      } else {
        assert c[j].used || c[k].used;
      }
    }
  }

  /** A free block absorbing its free right neighbour ends up in front of a used block. */
  lemma AbsorbRightCoalesced(c: seq<Block>, i: nat)
    requires CoalescedBut(c, i) && i + 1 < |c| - 1 && !c[i + 1].used
    ensures CoalescedBut(Absorb(c, i + 1), i) && Absorb(c, i + 1)[i + 1].used
  {
    var g := Absorb(c, i + 1);
    assert forall k | i < k < |g| :: g[k] == c[k + 1];
    forall j, k | 0 <= j < k < |g| && k == j + 1 && j != i && k != i ensures g[j].used || g[k].used {
      if j > i {
        assert c[j + 1].used || c[k + 1].used;
      }
    }
    assert c[i + 1].used || c[i + 2].used;
  }

  /** Absorbed by its free left neighbour, the doubtful place moves to that neighbour. */
  lemma AbsorbLeftCoalesced(c: seq<Block>, i: nat)
    requires CoalescedBut(c, i) && 0 < i < |c| - 1 && !c[i - 1].used
    ensures CoalescedBut(Absorb(c, i), i - 1) && (i - 1 > 0 ==> Absorb(c, i)[i - 2].used)
  {
    var g := Absorb(c, i);
    assert forall k | 0 <= k < |g| :: g[k] == if k < i then c[k] else c[k + 1];
    forall j, k | 0 <= j < k < |g| && k == j + 1 && j != i - 1 && k != i - 1 ensures g[j].used || g[k].used {
      if j >= i {
        assert c[j + 1].used || c[k + 1].used;
      } else {
        assert c[j].used || c[k].used;
      }
    }
    var before := if i > 1 then i - 2 else 0;
    assert c[before].used || c[before + 1].used || i == 1;
  }

  lemma CoalescedWhole(c: seq<Block>, i: nat)
    requires CoalescedBut(c, i) && i < |c| - 1
    requires c[i].used || (c[i + 1].used && (i > 0 ==> c[i - 1].used))
    ensures Coalesced(c)
  {
  }

  /** Taking a free block (whole or its front part) keeps the chain coalesced. */
  lemma TakeCoalesced(c: seq<Block>, i: nat, b: Block)
    requires Coalesced(c) && i < |c| - 1 && !c[i].used
    ensures Coalesced(Mark(c, i, true)) && Coalesced(Mark(Split(c, i, b), i, true))
  {
    var d := Mark(Split(c, i, b), i, true);
    assert c[i].used || c[i + 1].used;
    forall j, k | 0 <= j < k < |d| && k == j + 1 ensures d[j].used || d[k].used {
      if j > i + 1 {
        assert c[j - 1].used || c[k - 1].used;
      } else if j < i {
        assert c[j].used || c[k].used;
      } else if j == i + 1 {
        assert d[k] == c[i + 1];
      }
    }
    forall j, k | 0 <= j < k < |c| && k == j + 1 ensures Mark(c, i, true)[j].used || Mark(c, i, true)[k].used {
      assert c[j].used || c[k].used;
    }
  }

  // ------------------------------------------------------------------ a heap is determined by its areas

  lemma UsedStart(c: seq<Block>, hdr: nat, end: nat, i: nat, a: int)
    requires Tiled(c, hdr, end) && i < |c| - 1 && (c[i].at + hdr, a) in Live(c, hdr)
    ensures c[i].used && a == Room(c, hdr, i)
  {
    LiveStartsOnceIf(c, hdr, end, i, (c[i].at + hdr, a));
    var k := LiveWitness(c, hdr, (c[i].at + hdr, a));
  }

  lemma LiveStartsOnceIf(c: seq<Block>, hdr: nat, end: nat, i: nat, x: (nat, int))
    requires Tiled(c, hdr, end) && i < |c| - 1 && x.0 == c[i].at + hdr && x in Live(c, hdr)
    ensures x == Area(c, hdr, i)
  {
    if x != Area(c, hdr, i) { LiveStartsOnce(c, hdr, end, i, x); }
  }

  /** The block behind one that both chains have. */
  lemma NextOfSame(c: seq<Block>, d: seq<Block>, hdr: nat, end: nat, i: nat)
    requires Tiled(c, hdr, end) && Tiled(d, hdr, end) && Coalesced(c) && Coalesced(d) && Live(c, hdr) == Live(d, hdr)
    requires i < |c| - 1 && i < |d| - 1 && c[i].at == d[i].at
    ensures c[i].used == d[i].used
    ensures c[i + 1].at <= d[i + 1].at
  {
    hide Live, Total, IndexOf;
    if c[i].used {
      LiveIntro(c, hdr, i);
      UsedStart(d, hdr, end, i, Room(c, hdr, i));
    } else if d[i].used {
      LiveIntro(d, hdr, i);
      UsedStart(c, hdr, end, i, Room(d, hdr, i));
    } else {
      NextUsedAppears(c, d, hdr, end, i);
    }
  }

  /** Behind a free block, the next block of d is used or the end, so c has it too. */
  lemma NextUsedAppears(c: seq<Block>, d: seq<Block>, hdr: nat, end: nat, i: nat)
    requires Tiled(c, hdr, end) && Tiled(d, hdr, end) && Coalesced(d) && Live(c, hdr) == Live(d, hdr)
    requires i < |c| - 1 && i < |d| - 1 && c[i].at == d[i].at && !d[i].used
    ensures c[i + 1].at <= d[i + 1].at
  {
    hide Live, Total, IndexOf;
    assert d[i].used || d[i + 1].used;
    if i + 1 == |d| - 1 {
      assert i + 1 < |c| - 1 ==> c[i + 1].at < c[|c| - 1].at;
    } else {
      LiveIntro(d, hdr, i + 1);
      var k := LiveWitness(c, hdr, Area(d, hdr, i + 1));
      assert c[k].at == d[i + 1].at && d[i].at < d[i + 1].at;
      assert i + 1 < k ==> c[i + 1].at < c[k].at;
    }
  }

  lemma {:induction false} SameUpTo(c: seq<Block>, d: seq<Block>, hdr: nat, end: nat, i: nat)
    requires Tiled(c, hdr, end) && Tiled(d, hdr, end) && Coalesced(c) && Coalesced(d) && Live(c, hdr) == Live(d, hdr)
    requires i < |c|
    ensures i < |d| && c[i] == d[i]
  {
    hide Live;
    if i > 0 {
      SameUpTo(c, d, hdr, end, i - 1);
      if i - 1 < |d| - 1 {
        NextOfSame(c, d, hdr, end, i - 1);
        NextOfSame(d, c, hdr, end, i - 1);
      }
    }
    SameFlag(c, d, hdr, end, i);
  }

  lemma SameFlag(c: seq<Block>, d: seq<Block>, hdr: nat, end: nat, i: nat)
    requires Tiled(c, hdr, end) && Tiled(d, hdr, end) && Coalesced(c) && Coalesced(d) && Live(c, hdr) == Live(d, hdr)
    requires i < |c| && i < |d| && c[i].at == d[i].at
    ensures c[i] == d[i]
  {
    if i < |c| - 1 && i < |d| - 1 {
      NextOfSame(c, d, hdr, end, i);
    }
  }

  /** Two coalesced chains over the same memory with the same allocated areas are the same chain. */
  lemma AreasDetermineChain(c: seq<Block>, d: seq<Block>, hdr: nat, end: nat)
    requires Tiled(c, hdr, end) && Tiled(d, hdr, end) && Coalesced(c) && Coalesced(d) && Live(c, hdr) == Live(d, hdr)
    ensures c == d
  {
    hide Live, Coalesced, Tiled;
    forall i: nat | i < |c| ensures i < |d| && c[i] == d[i] { SameUpTo(c, d, hdr, end, i); }
    if d != [] { SameUpTo(d, c, hdr, end, |d| - 1); }
    if c != [] { SameUpTo(c, d, hdr, end, |c| - 1); }
  }
}
