/** The line code of the meter radio: 64 bits sent as Manchester pairs, laid out as an 8 by 8
    matrix whose rows and columns all have even parity. */
module RadioCode {
  import opened Numbers

  /** Bit k of a number, bit 0 the lowest. */
  function GetBit(b: nat, k: nat): bool {
    if k == 0 then b % 2 == 1 else GetBit(b / 2, k - 1)
  }

  /** The number written by the bits of s, the highest first: the shift-and-or loops. */
  function ValueOf(s: seq<bool>): nat {
    if s == [] then 0 else 2 * ValueOf(s[..|s| - 1]) + Bit(s[|s| - 1])
  }

  function BitsOf(n: nat, w: nat): (s: seq<bool>)
    ensures |s| == w
  {
    if w == 0 then [] else BitsOf(n / 2, w - 1) + [n % 2 == 1]
  }

  function Pow2(n: nat): (p: nat)
    ensures p > 0
  {
    if n == 0 then 1 else 2 * Pow2(n - 1)
  }

  lemma {:induction false} ValueOfBits(n: nat, w: nat)
    requires n < Pow2(w)
    ensures ValueOf(BitsOf(n, w)) == n
  {
    if w > 0 {
      var s := BitsOf(n, w);
      assert s[..|s| - 1] == BitsOf(n / 2, w - 1);
      ValueOfBits(n / 2, w - 1);
      LastBit(s);
    }
  }

  lemma HalfOf(v: nat, x: bool)
    ensures (2 * v + Bit(x)) / 2 == v && ((2 * v + Bit(x)) % 2 == 1) == x
  {
  }

  /** One step of each of the recursive functions. */
  lemma LastBit(s: seq<bool>)
    requires s != []
    ensures ValueOf(s) == 2 * ValueOf(s[..|s| - 1]) + Bit(s[|s| - 1])
  {
  }

  lemma LastOfBits(n: nat, w: nat)
    ensures BitsOf(n, w + 1) == BitsOf(n / 2, w) + [n % 2 == 1]
  {
  }

  lemma NextPower(n: nat)
    ensures Pow2(n + 1) == 2 * Pow2(n)
  {
  }

  lemma NoBits()
    ensures ValueOf([]) == 0 && BitsOf(0, 0) == [] && Pow2(0) == 1
  {
  }

  lemma {:induction false} BitsOfValue(s: seq<bool>)
    ensures BitsOf(ValueOf(s), |s|) == s && ValueOf(s) < Pow2(|s|)
  {
    hide ValueOf, BitsOf, Pow2;
    if s == [] {
      NoBits();
    } else {
      var n := |s| - 1;
      var t, x := s[..n], s[n];
      BitsOfValue(t);
      LastBit(s);
      HalfOf(ValueOf(t), x);
      LastOfBits(ValueOf(s), n);
      NextPower(n);
      hide Bit;
      assert s == t + [x];
      SmallBit(x);
    }
  }

  lemma SmallBit(x: bool)
    ensures Bit(x) <= 1
  {
  }

  lemma {:induction false} GetBitOfValue(s: seq<bool>, k: nat)
    requires k < |s|
    ensures GetBit(ValueOf(s), |s| - 1 - k) == s[k]
  {
    hide ValueOf;
    var t := s[..|s| - 1];
    LastBit(s);
    HalfOf(ValueOf(t), s[|s| - 1]);
    if k < |s| - 1 {
      GetBitOfValue(t, k);
      assert |s| - 1 - k == (|t| - 1 - k) + 1;
    }
  }

  /** The eight bits of a byte, the highest first. */
  function RowBits(b: Byte): (s: seq<bool>)
    ensures |s| == 8 && forall c: nat | c < 8 :: s[c] == GetBit(b, 7 - c)
  {
    seq(8, c requires 0 <= c < 8 => GetBit(b, 7 - c))
  }

  lemma {:induction false} BitsAreRow(n: nat, w: nat, c: nat)
    requires c < w
    ensures BitsOf(n, w)[c] == GetBit(n, w - 1 - c)
  {
    if c < w - 1 { BitsAreRow(n / 2, w - 1, c); }
  }

  /** A byte is determined by its bits. */
  lemma ByteFromBits(b: Byte)
    ensures ValueOf(RowBits(b)) == b
  {
    forall c: nat | c < 8 ensures BitsOf(b, 8)[c] == RowBits(b)[c] { BitsAreRow(b, 8, c); }
    assert BitsOf(b, 8) == RowBits(b);
    assert Pow2(8) == 256;
    ValueOfBits(b, 8);
  }

  function ByteOf(s: seq<bool>): (b: Byte)
    requires |s| == 8
  {
    BitsOfValue(s);
    assert Pow2(8) == 256;
    ValueOf(s)
  }

  lemma BitsOfByte(s: seq<bool>)
    requires |s| == 8
    ensures RowBits(ByteOf(s)) == s
  {
    forall c: nat | c < 8 ensures RowBits(ByteOf(s))[c] == s[c] { GetBitOfValue(s, c); }
  }

  // ------------------------------------------------------------------ Manchester pairs

  /** A pair of different bits carries the second of them. */
  predicate PairOk(b: Byte, j: nat)
    requires j < 4
  {
    GetBit(b, 7 - 2 * j) != GetBit(b, 6 - 2 * j)
  }

  function PairBit(b: Byte, j: nat): bool
    requires j < 4
  {
    GetBit(b, 6 - 2 * j)
  }

  ghost predicate PairsOk(rx: seq<Byte>) {
    |rx| == 16 && forall i: nat, j: nat | i < 16 && j < 4 :: PairOk(rx[i], j)
  }

  function FourBits(b: Byte): seq<bool> {
    [PairBit(b, 0), PairBit(b, 1), PairBit(b, 2), PairBit(b, 3)]
  }

  function PairBits(x: Byte, y: Byte): (s: seq<bool>)
    ensures |s| == 8
  {
    FourBits(x) + FourBits(y)
  }

  /** The eight data bytes carried by sixteen received ones. */
  function Unpack(rx: seq<Byte>): (d: seq<Byte>)
    requires |rx| == 16
    ensures |d| == 8
  {
    seq(8, r requires 0 <= r < 8 => ByteOf(PairBits(rx[2 * r], rx[2 * r + 1])))
  }

  /** Four bits as pairs: 1 is sent as 01, 0 as 10. */
  function PairsByte(s: seq<bool>): Byte
    requires |s| == 4
  {
    ByteOf([!s[0], s[0], !s[1], s[1], !s[2], s[2], !s[3], s[3]])
  }

  function Pack(d: seq<Byte>): (rx: seq<Byte>)
    requires |d| == 8
    ensures |rx| == 16
  {
    seq(16, i requires 0 <= i < 16 => PairsByte(HalfBits(d[i / 2], i % 2)))
  }

  function HalfBits(b: Byte, h: nat): (s: seq<bool>)
    requires h < 2
    ensures |s| == 4
  {
    RowBits(b)[4 * h..4 * h + 4]
  }

  lemma PairsByteRoundTrip(s: seq<bool>)
    requires |s| == 4
    ensures FourBits(PairsByte(s)) == s
    ensures forall j: nat | j < 4 :: PairOk(PairsByte(s), j)
  {
    var t := [!s[0], s[0], !s[1], s[1], !s[2], s[2], !s[3], s[3]];
    hide ByteOf, GetBit;
    BitsOfByte(t);
    var b := ByteOf(t);
    assert forall c: nat | c < 8 :: t[c] == GetBit(b, 7 - c);
    forall j: nat | j < 4 ensures PairOk(b, j) && PairBit(b, j) == s[j] {
      assert GetBit(b, 7 - 2 * j) == t[2 * j];
      assert GetBit(b, 6 - 2 * j) == t[2 * j + 1];
    }
  }

  lemma RowRoundTrip(b: Byte)
    ensures PairBits(PairsByte(HalfBits(b, 0)), PairsByte(HalfBits(b, 1))) == RowBits(b)
  {
    hide PairsByte, FourBits, RowBits;
    PairsByteRoundTrip(HalfBits(b, 0));
    PairsByteRoundTrip(HalfBits(b, 1));
    assert RowBits(b)[0..4] + RowBits(b)[4..8] == RowBits(b);
  }

  lemma PackedRow(d: seq<Byte>, r: nat)
    requires |d| == 8 && r < 8
    ensures Unpack(Pack(d))[r] == d[r]
  {
    hide ByteOf, PairsByte, PairBits, HalfBits, RowBits;
    var rx := Pack(d);
    assert rx[2 * r] == PairsByte(HalfBits(d[r], 0)) && rx[2 * r + 1] == PairsByte(HalfBits(d[r], 1));
    RowRoundTrip(d[r]);
    RowByte(d[r]);
  }

  /** What is packed is received without pair errors and unpacks to itself. */
  lemma PackRoundTrip(d: seq<Byte>)
    requires |d| == 8
    ensures PairsOk(Pack(d)) && Unpack(Pack(d)) == d
  {
    var rx := Pack(d);
    hide PairsByte, HalfBits, PairOk, Unpack;
    forall i: nat, j: nat | i < 16 && j < 4 ensures PairOk(rx[i], j) { PairsByteRoundTrip(HalfBits(d[i / 2], i % 2)); }
    forall r: nat | r < 8 ensures Unpack(rx)[r] == d[r] { PackedRow(d, r); }
  }

  /** Bit c of received row r is 1 exactly when its pair came as 0 and then 1. */
  lemma UnpackReads(rx: seq<Byte>, r: nat, c: nat)
    requires PairsOk(rx) && r < 8 && c < 8
    ensures var b, j := rx[2 * r + c / 4], c % 4;
            GetBit(Unpack(rx)[r], 7 - c) <==> !GetBit(b, 7 - 2 * j) && GetBit(b, 6 - 2 * j)
  {
    var x, y := rx[2 * r], rx[2 * r + 1];
    hide ByteOf, GetBit;
    BitsOfByte(PairBits(x, y));
    assert RowBits(Unpack(rx)[r])[c] == PairBits(x, y)[c];
    assert PairOk(rx[2 * r + c / 4], c % 4);
    assert PairBits(x, y)[c] == PairBit(rx[2 * r + c / 4], c % 4);
  }

  lemma RowByte(b: Byte)
    ensures ByteOf(RowBits(b)) == b
  {
    ByteFromBits(b);
  }

  /** Two receptions without pair errors that unpack alike are alike: a frame has one spelling. */
  lemma PairsUnique(x: Byte, y: Byte)
    requires forall j: nat | j < 4 :: PairOk(x, j) && PairOk(y, j) && PairBit(x, j) == PairBit(y, j)
    ensures x == y
  {
    hide GetBit;
    forall c: nat | c < 8 ensures RowBits(x)[c] == RowBits(y)[c] {
      var j := c / 2;
      assert PairOk(x, j) && PairOk(y, j) && PairBit(x, j) == PairBit(y, j);
      assert c == 2 * j || c == 2 * j + 1;
    }
    assert RowBits(x) == RowBits(y);
    ByteFromBits(x);
    ByteFromBits(y);
  }

  // ------------------------------------------------------------------ the parity matrix

  /** Row r, column c; column 0 is the highest bit of the row. */
  function Cell(d: seq<Byte>, r: nat, c: nat): bool
    requires |d| == 8 && r < 8 && c < 8
  {
    GetBit(d[r], 7 - c)
  }

  function RowOnes(d: seq<Byte>, r: nat, n: nat): nat
    requires |d| == 8 && r < 8 && n <= 8
  {
    if n == 0 then 0 else RowOnes(d, r, n - 1) + Bit(Cell(d, r, n - 1))
  }

  function ColumnOnes(d: seq<Byte>, c: nat, n: nat): nat
    requires |d| == 8 && c < 8 && n <= 8
  {
    if n == 0 then 0 else ColumnOnes(d, c, n - 1) + Bit(Cell(d, n - 1, c))
  }

  ghost predicate EvenParity(d: seq<Byte>)
    requires |d| == 8
  {
    (forall r: nat | r < 8 :: RowOnes(d, r, 8) % 2 == 0) && (forall c: nat | c < 8 :: ColumnOnes(d, c, 8) % 2 == 0)
  }

  /** Matrices that differ at one place of a row only cannot both have even parity there. */
  lemma {:induction false} RowDifference(d: seq<Byte>, e: seq<Byte>, r: nat, k: nat, n: nat)
    requires |d| == 8 == |e| && r < 8 && k < 8 && n <= 8
    requires forall c: nat | c < 8 && c != k :: Cell(d, r, c) == Cell(e, r, c)
    requires Cell(d, r, k) != Cell(e, r, k)
    ensures RowOnes(d, r, n) == RowOnes(e, r, n) + if n <= k then 0 else Bit(Cell(d, r, k)) - Bit(Cell(e, r, k))
  {
    hide Cell;
    if n > 0 { RowDifference(d, e, r, k, n - 1); }
  }

  lemma {:induction false} ColumnDifference(d: seq<Byte>, e: seq<Byte>, c: nat, k: nat, n: nat)
    requires |d| == 8 == |e| && c < 8 && k < 8 && n <= 8
    requires forall r: nat | r < 8 && r != k :: Cell(d, r, c) == Cell(e, r, c)
    requires Cell(d, k, c) != Cell(e, k, c)
    ensures ColumnOnes(d, c, n) == ColumnOnes(e, c, n) + if n <= k then 0 else Bit(Cell(d, k, c)) - Bit(Cell(e, k, c))
  {
    hide Cell;
    if n > 0 { ColumnDifference(d, e, c, k, n - 1); }
  }

  lemma SecondInRow(d: seq<Byte>, e: seq<Byte>, r: nat, c: nat) returns (c': nat)
    requires |d| == 8 == |e| && EvenParity(d) && EvenParity(e) && r < 8 && c < 8 && Cell(d, r, c) != Cell(e, r, c)
    ensures c' < 8 && c' != c && Cell(d, r, c') != Cell(e, r, c')
  {
    hide Cell, RowOnes, ColumnOnes;
    assert RowOnes(d, r, 8) % 2 == 0 && RowOnes(e, r, 8) % 2 == 0;
    if forall x: nat | x < 8 && x != c :: Cell(d, r, x) == Cell(e, r, x) {
      RowDifference(d, e, r, c, 8);
      assert false;
    }
    c' :| c' < 8 && c' != c && Cell(d, r, c') != Cell(e, r, c');
  }

  lemma SecondInColumn(d: seq<Byte>, e: seq<Byte>, r: nat, c: nat) returns (r': nat)
    requires |d| == 8 == |e| && EvenParity(d) && EvenParity(e) && r < 8 && c < 8 && Cell(d, r, c) != Cell(e, r, c)
    ensures r' < 8 && r' != r && Cell(d, r', c) != Cell(e, r', c)
  {
    hide Cell, RowOnes, ColumnOnes;
    assert ColumnOnes(d, c, 8) % 2 == 0 && ColumnOnes(e, c, 8) % 2 == 0;
    if forall x: nat | x < 8 && x != r :: Cell(d, x, c) == Cell(e, x, c) {
      ColumnDifference(d, e, c, r, 8);
      assert false;
    }
    r' :| r' < 8 && r' != r && Cell(d, r', c) != Cell(e, r', c);
  }

  /** The places where two matrices differ, row by row. */
  function Differences(d: seq<Byte>, e: seq<Byte>): set<(nat, nat)>
    requires |d| == 8 == |e|
  {
    set r: nat, c: nat | r < 8 && c < 8 && Cell(d, r, c) != Cell(e, r, c) :: (r, c)
  }

  lemma SomeDifference(d: seq<Byte>, e: seq<Byte>) returns (r: nat, c: nat)
    requires |d| == 8 == |e| && d != e
    ensures r < 8 && c < 8 && Cell(d, r, c) != Cell(e, r, c)
  {
    r :| r < 8 && d[r] != e[r];
    if forall x: nat | x < 8 :: Cell(d, r, x) == Cell(e, r, x) {
      assert RowBits(d[r]) == RowBits(e[r]) by {
        hide GetBit;
        forall x: nat | x < 8 ensures RowBits(d[r])[x] == RowBits(e[r])[x] { assert Cell(d, r, x) == Cell(e, r, x); }
      }
      ByteFromBits(d[r]);
      ByteFromBits(e[r]);
      assert false;
    }
    c :| c < 8 && Cell(d, r, c) != Cell(e, r, c);
  }

  /** Distance of the code: two different matrices that pass the parity test differ in at least
      four bits. */
  lemma DistanceFour(d: seq<Byte>, e: seq<Byte>)
    requires |d| == 8 == |e| && EvenParity(d) && EvenParity(e) && d != e
    ensures |Differences(d, e)| >= 4
  {
    var r, c := SomeDifference(d, e);
    var c' := SecondInRow(d, e, r, c);
    var r' := SecondInColumn(d, e, r, c);
    var r'' := SecondInColumn(d, e, r, c');
    hide Cell;
    var all := Differences(d, e);
    var four := {(r, c), (r, c'), (r', c), (r'', c')};
    assert four <= all;
    assert |four| == 4;
    SubsetSize(four, all);
  }

  lemma {:induction false} SubsetSize<T>(a: set<T>, b: set<T>)
    requires a <= b
    ensures |a| <= |b|
    decreases a
  {
    if a != {} {
      var x :| x in a;
      SubsetSize(a - {x}, b - {x});
    }
  }

  /** One to three flipped bits are always noticed. */
  lemma FewFlipsNoticed(d: seq<Byte>, e: seq<Byte>)
    requires |d| == 8 == |e| && EvenParity(d) && 1 <= |Differences(d, e)| <= 3
    ensures !EvenParity(e)
  {
    if EvenParity(e) { DistanceFour(d, e); }
  }

  // ------------------------------------------------------------------ building a matrix

  function Payload(d: seq<Byte>, q: nat): bool
    requires |d| == 8 && q < 56
  {
    Cell(d, q / 7, q % 7)
  }

  predicate OddCount(s: seq<bool>) {
    if s == [] then false else OddCount(s[..|s| - 1]) != s[|s| - 1]
  }

  /** The 7 by 7 payload bits of row r followed by their parity. */
  function PayloadRow(p: seq<bool>, r: nat): (s: seq<bool>)
    requires |p| == 49 && r < 7
    ensures |s| == 8
  {
    p[7 * r..7 * r + 7] + [OddCount(p[7 * r..7 * r + 7])]
  }

  function Upper(p: seq<bool>): (d: seq<Byte>)
    requires |p| == 49
    ensures |d| == 7
  {
    seq(7, r requires 0 <= r < 7 => ByteOf(PayloadRow(p, r)))
  }

  /** The parity row: for each column, the parity of the seven rows above. */
  function LastRow(u: seq<Byte>): (s: seq<bool>)
    requires |u| == 7
    ensures |s| == 8
  {
    seq(8, c requires 0 <= c < 8 => ColumnOnes(u + [0], c, 7) % 2 == 1)
  }

  function Build(p: seq<bool>): (d: seq<Byte>)
    requires |p| == 49
    ensures |d| == 8
  {
    Upper(p) + [ByteOf(LastRow(Upper(p)))]
  }

  lemma CellOfByte(d: seq<Byte>, r: nat, s: seq<bool>, c: nat)
    requires |d| == 8 && r < 8 && |s| == 8 && d[r] == ByteOf(s) && c < 8
    ensures Cell(d, r, c) == s[c]
  {
    BitsOfByte(s);
    hide GetBit, ByteOf;
    assert RowBits(d[r])[c] == s[c];
  }

  lemma {:induction false} RowCount(d: seq<Byte>, r: nat, s: seq<bool>, n: nat)
    requires |d| == 8 && r < 8 && |s| == 8 && d[r] == ByteOf(s) && n <= 8
    ensures (RowOnes(d, r, n) % 2 == 1) == OddCount(s[..n])
  {
    if n > 0 {
      hide ByteOf, Cell;
      RowCount(d, r, s, n - 1);
      CellOfByte(d, r, s, n - 1);
      assert s[..n][..n - 1] == s[..n - 1];
    }
  }

  lemma {:induction false} ColumnOnesAbove(d: seq<Byte>, e: seq<Byte>, c: nat, n: nat)
    requires |d| == 8 == |e| && d[..7] == e[..7] && c < 8 && n <= 7
    ensures ColumnOnes(d, c, n) == ColumnOnes(e, c, n)
  {
    if n > 0 {
      ColumnOnesAbove(d, e, c, n - 1);
      assert d[n - 1] == d[..7][n - 1] == e[..7][n - 1] == e[n - 1];
    }
  }

  function RowsTotal(d: seq<Byte>, rows: nat, columns: nat): nat
    requires |d| == 8 && rows <= 8 && columns <= 8
  {
    if rows == 0 then 0 else RowsTotal(d, rows - 1, columns) + RowOnes(d, rows - 1, columns)
  }

  function ColumnsTotal(d: seq<Byte>, rows: nat, columns: nat): nat
    requires |d| == 8 && rows <= 8 && columns <= 8
  {
    if columns == 0 then 0 else ColumnsTotal(d, rows, columns - 1) + ColumnOnes(d, columns - 1, rows)
  }

  lemma {:induction false} AddRow(d: seq<Byte>, rows: nat, columns: nat)
    requires |d| == 8 && rows < 8 && columns <= 8
    ensures ColumnsTotal(d, rows + 1, columns) == ColumnsTotal(d, rows, columns) + RowOnes(d, rows, columns)
  {
    hide Cell;
    if columns > 0 { AddRow(d, rows, columns - 1); }
  }

  lemma {:induction false} CountBothWays(d: seq<Byte>, rows: nat, columns: nat)
    requires |d| == 8 && rows <= 8 && columns <= 8
    ensures RowsTotal(d, rows, columns) == ColumnsTotal(d, rows, columns)
  {
    hide Cell, RowOnes;
    if rows == 0 {
      NoRows(d, columns);
    } else {
      CountBothWays(d, rows - 1, columns);
      AddRow(d, rows - 1, columns);
    }
  }

  lemma {:induction false} NoRows(d: seq<Byte>, columns: nat)
    requires |d| == 8 && columns <= 8
    ensures ColumnsTotal(d, 0, columns) == 0
  {
    if columns > 0 { NoRows(d, columns - 1); }
  }

  lemma {:induction false} EvenTotals(d: seq<Byte>, n: nat)
    requires |d| == 8 && n <= 8
    ensures (forall r: nat | r < n :: RowOnes(d, r, 8) % 2 == 0) ==> RowsTotal(d, n, 8) % 2 == 0
    ensures (forall c: nat | c < n :: ColumnOnes(d, c, 8) % 2 == 0) ==> ColumnsTotal(d, 8, n) % 2 == 0
  {
    hide Cell, RowOnes, ColumnOnes;
    if n > 0 { EvenTotals(d, n - 1); }
  }

  /** A matrix whose columns and first seven rows are even is even in the last row too. */
  lemma LastRowEven(d: seq<Byte>)
    requires |d| == 8
    requires forall r: nat | r < 7 :: RowOnes(d, r, 8) % 2 == 0
    requires forall c: nat | c < 8 :: ColumnOnes(d, c, 8) % 2 == 0
    ensures RowOnes(d, 7, 8) % 2 == 0
  {
    EvenTotals(d, 7);
    EvenTotals(d, 8);
    CountBothWays(d, 8, 8);
    hide RowOnes, ColumnOnes, ColumnsTotal;
    assert RowsTotal(d, 8, 8) == RowsTotal(d, 7, 8) + RowOnes(d, 7, 8);
  }

  /** What is built passes the parity test and carries the payload. */
  lemma BuildIsEven(p: seq<bool>)
    requires |p| == 49
    ensures EvenParity(Build(p))
  {
    var d := Build(p);
    forall r: nat | r < 7 ensures RowOnes(d, r, 8) % 2 == 0 { BuiltRow(p, r); }
    forall c: nat | c < 8 ensures ColumnOnes(d, c, 8) % 2 == 0 { BuiltColumn(p, c); }
    hide RowOnes, ColumnOnes, Build;
    LastRowEven(d);
    forall r: nat | r < 8 ensures RowOnes(d, r, 8) % 2 == 0 {
      if r == 7 { assert RowOnes(d, 7, 8) % 2 == 0; }
    }
  }

  lemma BuiltRow(p: seq<bool>, r: nat)
    requires |p| == 49 && r < 7
    ensures RowOnes(Build(p), r, 8) % 2 == 0
  {
    var s := PayloadRow(p, r);
    assert Build(p)[r] == ByteOf(s);
    hide ByteOf, Build;
    RowCount(Build(p), r, s, 8);
    assert s[..8] == s && s[..7] == p[7 * r..7 * r + 7];
  }

  lemma BuiltColumn(p: seq<bool>, c: nat)
    requires |p| == 49 && c < 8
    ensures ColumnOnes(Build(p), c, 8) % 2 == 0
  {
    var u, d := Upper(p), Build(p);
    var s := LastRow(u);
    hide ByteOf, Upper;
    assert d[7] == ByteOf(s);
    CellOfByte(d, 7, s, c);
    assert d[..7] == u == (u + [0])[..7];
    hide Cell, Build;
    ColumnOnesAbove(d, u + [0], c, 7);
    assert s[c] == (ColumnOnes(d, c, 7) % 2 == 1);
    assert ColumnOnes(d, c, 8) == ColumnOnes(d, c, 7) + Bit(s[c]);
  }

  lemma BuiltPayload(p: seq<bool>, q: nat)
    requires |p| == 49 && q < 49
    ensures Payload(Build(p), q) == p[q]
  {
    var r := q / 7;
    assert Build(p)[r] == ByteOf(PayloadRow(p, r));
    hide ByteOf, Build, Cell;
    CellOfByte(Build(p), r, PayloadRow(p, r), q % 7);
    assert PayloadRow(p, r)[q % 7] == p[7 * r + q % 7];
  }

  /** The seven places behind the payload are the parities of its columns. */
  lemma BuiltParityRow(p: seq<bool>, c: nat)
    requires |p| == 49 && c < 7
    ensures Payload(Build(p), 49 + c) == (ColumnOnes(Build(p), c, 7) % 2 == 1)
  {
    var d := Build(p);
    BuiltColumn(p, c);
    hide Build, Cell;
    assert ColumnOnes(d, c, 8) == ColumnOnes(d, c, 7) + Bit(Cell(d, 7, c));
    assert (49 + c) / 7 == 7 && (49 + c) % 7 == c;
  }
}
