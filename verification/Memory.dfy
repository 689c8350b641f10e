/** rt_memset, rt_memcpy and rt_memmove over one byte memory; addresses are offsets from a
    word-aligned base. */
module Memory {
  import opened Numbers

  const WORD: nat := 4
  const BIG_BLOCK: nat := 16

  /** n bytes from d on replaced by those from s on. */
  function Moved(m: seq<Byte>, d: nat, s: nat, n: nat): (r: seq<Byte>)
    requires d + n <= |m| && s + n <= |m|
    ensures |r| == |m|
    ensures forall k: nat | k < |m| :: r[k] == if d <= k < d + n then m[s + (k - d)] else m[k]
  {
    m[..d] + m[s..s + n] + m[d + n..]
  }

  function Filled(m: seq<Byte>, d: nat, c: Byte, n: nat): (r: seq<Byte>)
    requires d + n <= |m|
    ensures |r| == |m|
    ensures forall k: nat | k < |m| :: r[k] == if d <= k < d + n then c else m[k]
  {
    m[..d] + seq(n, i => c) + m[d + n..]
  }

  /** rt_memmove: correct for every overlap. */
  method MemMove(m: array<Byte>, dest: nat, src: nat, n: nat)
    requires dest + n <= m.Length && src + n <= m.Length
    modifies m
    ensures m[..] == Moved(old(m[..]), dest, src, n)
  {
    hide Moved;
    ghost var was: seq<Byte> := m[..];
    if src < dest < src + n {
      var i := n;
      MovedNothing(was, dest + n, src + n);
      while i > 0
        invariant 0 <= i <= n && m[..] == Moved(was, dest + i, src + i, n - i)
      {
        BackwardStep(was, dest, src, n, i);
        ghost var now: seq<Byte> := m[..];
        i := i - 1;
        m[dest + i] := m[src + i];
        assert m[..] == now[dest + i := now[src + i]];
      }
    } else {
      var i := 0;
      MovedNothing(was, dest, src);
      while i < n
        invariant 0 <= i <= n && m[..] == Moved(was, dest, src, i)
      {
        ForwardStep(was, dest, src, i);
        ghost var now: seq<Byte> := m[..];
        m[dest + i] := m[src + i];
        assert m[..] == now[dest + i := now[src + i]];
        i := i + 1;
      }
    }
  }

  /** Going up, the next source byte has not been overwritten. */
  lemma ForwardStep(was: seq<Byte>, d: nat, s: nat, i: nat)
    requires d + i < |was| && s + i < |was| && (d <= s || s + i < d)
    ensures var m := Moved(was, d, s, i); m[d + i := m[s + i]] == Moved(was, d, s, i + 1)
  {
    var m, r := Moved(was, d, s, i), Moved(was, d, s, i + 1);
    hide Moved;
    forall k: nat | k < |was| ensures m[d + i := m[s + i]][k] == r[k] {
    }
  }

  /** Going down, neither. */
  lemma BackwardStep(was: seq<Byte>, d: nat, s: nat, n: nat, i: nat)
    requires d + n <= |was| && s + n <= |was| && s < d && 0 < i <= n
    ensures var m := Moved(was, d + i, s + i, n - i); m[d + i - 1 := m[s + i - 1]] == Moved(was, d + i - 1, s + i - 1, n - i + 1)
  {
  }

  /** Four bytes as one word: all are read before any is written. */
  method CopyWord(m: array<Byte>, d: nat, s: nat)
    requires d + WORD <= m.Length && s + WORD <= m.Length
    modifies m
    ensures m[..] == Moved(old(m[..]), d, s, WORD)
  {
    ghost var r := Moved(m[..], d, s, WORD);
    hide Moved;
    m[d], m[d + 1], m[d + 2], m[d + 3] := m[s], m[s + 1], m[s + 2], m[s + 3];
    forall k: nat | k < m.Length ensures m[k] == r[k] {
      assert k == d || k == d + 1 || k == d + 2 || k == d + 3 || k < d || k >= d + 4;
    }
    assert m[..] == r;
  }

  lemma MovedOn(was: seq<Byte>, d: nat, s: nat, i: nat, j: nat)
    requires d + i + j <= |was| && s + i + j <= |was| && (s + i + j <= d || d + i + j <= s)
    ensures Moved(Moved(was, d, s, i), d + i, s + i, j) == Moved(was, d, s, i + j)
  {
    var m := Moved(was, d, s, i);
    var a, b := Moved(m, d + i, s + i, j), Moved(was, d, s, i + j);
    hide Moved;
    forall k: nat | k < |was| ensures a[k] == b[k] {
      if d + i <= k < d + i + j { assert m[s + i + (k - (d + i))] == was[s + (k - d)]; }
    }
  }

  /** rt_memcpy of areas that do not overlap: sixteen bytes, four bytes, and one byte at a time. */
  method MemCpy(m: array<Byte>, dst: nat, src: nat, count: nat)
    requires dst + count <= m.Length && src + count <= m.Length && (src + count <= dst || dst + count <= src)
    modifies m
    ensures m[..] == Moved(old(m[..]), dst, src, count)
  {
    hide Moved;
    ghost var was: seq<Byte> := m[..];
    MovedNothing(was, dst, src);
    var len: nat, i: nat := count, 0;
    if len >= BIG_BLOCK && src % WORD == 0 && dst % WORD == 0 {
      while len >= BIG_BLOCK
        invariant i + len == count && m[..] == Moved(was, dst, src, i)
      {
        CopyWord(m, dst + i, src + i);
        MovedOn(was, dst, src, i, WORD);
        CopyWord(m, dst + i + 4, src + i + 4);
        MovedOn(was, dst, src, i + 4, WORD);
        CopyWord(m, dst + i + 8, src + i + 8);
        MovedOn(was, dst, src, i + 8, WORD);
        CopyWord(m, dst + i + 12, src + i + 12);
        MovedOn(was, dst, src, i + 12, WORD);
        i := i + 16;
        len := len - BIG_BLOCK;
      }
      while len >= WORD
        invariant i + len == count && m[..] == Moved(was, dst, src, i)
      {
        CopyWord(m, dst + i, src + i);
        MovedOn(was, dst, src, i, WORD);
        i := i + 4;
        len := len - WORD;
      }
    }
    while len > 0
      invariant i + len == count && m[..] == Moved(was, dst, src, i)
    {
      CopyByte(m, dst + i, src + i);
      MovedOn(was, dst, src, i, 1);
      i := i + 1;
      len := len - 1;
    }
  }

  method CopyByte(m: array<Byte>, d: nat, s: nat)
    requires d < m.Length && s < m.Length
    modifies m
    ensures m[..] == Moved(old(m[..]), d, s, 1)
  {
    m[d] := m[s];
  }

  lemma MovedNothing(was: seq<Byte>, d: nat, s: nat)
    requires d <= |was| && s <= |was|
    ensures Moved(was, d, s, 0) == was
  {
  }

  /** The word stored by rt_memset for the byte d: (d << 8 | d), doubled to 32 bits. */
  function FillWord(d: Byte): nat {
    var half := d * 0x100 + d;
    half * 0x1_0000 + half
  }

  /** A little-endian word store. */
  method StoreWord(m: array<Byte>, d: nat, w: nat)
    requires d + WORD <= m.Length && w < 0x1_0000_0000
    modifies m
    ensures m[d] == w % 256 && m[d + 1] == w / 0x100 % 256 && m[d + 2] == w / 0x1_0000 % 256 && m[d + 3] == w / 0x100_0000
    ensures forall k | 0 <= k < m.Length && !(d <= k < d + WORD) :: m[k] == old(m[k])
  {
    m[d], m[d + 1], m[d + 2], m[d + 3] := w % 256, w / 0x100 % 256, w / 0x1_0000 % 256, w / 0x100_0000;
  }

  lemma FillWordBytes(c: Byte)
    ensures var w := FillWord(c);
            w < 0x1_0000_0000 && w % 256 == c && w / 0x100 % 256 == c && w / 0x1_0000 % 256 == c && w / 0x100_0000 == c
  {
    var w := FillWord(c);
    assert w == c + 256 * (c + 256 * (c + 256 * c));
    assert w / 0x100 == c + 256 * (c + 256 * c);
    assert w / 0x1_0000 == c + 256 * c;
    assert w / 0x100_0000 == c;
    LowByte(c, c + 256 * (c + 256 * c));
    LowByte(c, c + 256 * c);
    LowByte(c, c);
  }

  lemma LowByte(c: Byte, rest: nat)
    ensures (c + 256 * rest) % 256 == c
  {
  }

  method FillOneWord(m: array<Byte>, d: nat, c: Byte, ghost was: seq<Byte>, ghost s: nat)
    requires s <= d && d + WORD <= m.Length && |was| == m.Length && m[..] == Filled(was, s, c, d - s)
    modifies m
    ensures m[..] == Filled(was, s, c, d + WORD - s)
  {
    FillWordBytes(c);
    hide FillWord;
    StoreWord(m, d, FillWord(c));
  }

  /** rt_memset, whatever the alignment and the count. */
  method MemSet(m: array<Byte>, s: nat, c: int, count: nat)
    requires s + count <= m.Length
    modifies m
    ensures m[..] == Filled(old(m[..]), s, c % 256, count)
  {
    hide Filled;
    ghost var was: seq<Byte> := m[..];
    var d: Byte := c % 256;
    FilledNothing(was, s, d);
    var left: nat, i: nat := count, s;
    if left >= WORD && s % WORD == 0 {
      while left >= WORD * 4
        invariant i + left == s + count && i >= s && m[..] == Filled(was, s, d, i - s)
      {
        FillOneWord(m, i, d, was, s);
        FillOneWord(m, i + 4, d, was, s);
        FillOneWord(m, i + 8, d, was, s);
        FillOneWord(m, i + 12, d, was, s);
        i := i + 16;
        left := left - 4 * WORD;
      }
      while left >= WORD
        invariant i + left == s + count && i >= s && m[..] == Filled(was, s, d, i - s)
      {
        FillOneWord(m, i, d, was, s);
        i := i + 4;
        left := left - WORD;
      }
    }
    while left > 0
      invariant i + left == s + count && i >= s && m[..] == Filled(was, s, d, i - s)
    {
      FillByte(m, i, d, was, s);
      i := i + 1;
      left := left - 1;
    }
  }

  method FillByte(m: array<Byte>, d: nat, c: Byte, ghost was: seq<Byte>, ghost s: nat)
    requires s <= d < m.Length && |was| == m.Length && m[..] == Filled(was, s, c, d - s)
    modifies m
    ensures m[..] == Filled(was, s, c, d + 1 - s)
  {
    m[d] := c;
  }

  lemma FilledNothing(was: seq<Byte>, s: nat, c: Byte)
    requires s <= |was|
    ensures Filled(was, s, c, 0) == was
  {
  }
}
