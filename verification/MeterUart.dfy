/** The serial link to the meter: requests that set a value, and the answers to requests. */
module MeterFrames {
  import opened Numbers

  const WORD: nat := 0x1_0000_0000

  /** number_hex. */
  function NumberHex(n: Byte): Byte
    requires n < 16
  {
    if n >= 10 then n - 10 + 65 else n + 48
  }

  /** hex_number; for any other character the original returns no value, here `junk`. */
  function HexNumber(c: Byte, junk: Byte): Byte {
    if 65 <= c <= 70 then c - 65 + 10
    else if 97 <= c <= 102 then c - 97 + 10
    else if 48 <= c <= 57 then c - 48
    else junk
  }

  lemma HexRoundTrip(n: Byte, junk: Byte)
    requires n < 16
    ensures HexNumber(NumberHex(n), junk) == n
    ensures 48 <= NumberHex(n) <= 57 || 65 <= NumberHex(n) <= 70
  {
  }

  /** The parser reads small letters like capital ones, and nothing else. */
  lemma HexOtherwise(c: Byte, junk: Byte)
    ensures 97 <= c <= 102 ==> HexNumber(c, junk) == HexNumber(c - 32, junk) == c - 87
    ensures HexNumber(c, junk) == junk || (exists n: Byte | n < 16 :: c == NumberHex(n)) || 97 <= c <= 102
  {
    if 48 <= c <= 57 { assert c == NumberHex(c - 48); }
    if 65 <= c <= 70 { assert c == NumberHex(c - 55); }
  }

  /** The last n hexadecimal digits of v, the highest first. */
  function Hex(v: nat, n: nat): (s: seq<Byte>)
    ensures |s| == n
  {
    if n == 0 then [] else Hex(v / 16, n - 1) + [NumberHex(v % 16)]
  }

  function ReadHex(s: seq<Byte>, junk: Byte): nat {
    if s == [] then 0 else ReadHex(s[..|s| - 1], junk) * 16 + HexNumber(s[|s| - 1], junk)
  }

  lemma {:induction false} HexReadsBack(v: nat, n: nat, junk: Byte)
    ensures ReadHex(Hex(v, n), junk) < Pow(16, n) && ReadHex(Hex(v, n), junk) <= v
    ensures ReadHex(Hex(v, n), junk) == v <==> v < Pow(16, n)
  {
    if n > 0 {
      var s := Hex(v, n);
      assert s[..|s| - 1] == Hex(v / 16, n - 1);
      HexReadsBack(v / 16, n - 1, junk);
      HexRoundTrip(v % 16, junk);
    }
  }

  /** Which numbers of decimal digits always fit one hexadecimal digit less. */
  lemma DecimalFits(n: nat)
    requires n >= 1
    ensures Pow(10, n) <= Pow(16, n - 1) <==> n >= 6
  {
    if n >= 6 {
      SixOrMore(n);
    } else {
      assert Pow(10, 2) == 100 && Pow(10, 3) == 1000 && Pow(10, 4) == 10000 && Pow(10, 5) == 100000;
      assert Pow(16, 2) == 256 && Pow(16, 3) == 4096 && Pow(16, 4) == 65536;
      assert n == 1 || n == 2 || n == 3 || n == 4 || n == 5;
    }
  }

  lemma {:induction false} SixOrMore(n: nat)
    requires n >= 6
    ensures Pow(10, n) <= Pow(16, n - 1)
  {
    if n == 6 {
      assert Pow(10, 6) == 1000000 && Pow(16, 5) == 1048576;
    } else {
      SixOrMore(n - 1);
    }
  }

  // ------------------------------------------------------------------ frames

  function Sum(s: seq<Byte>): Byte {
    if s == [] then 0 else (Sum(s[..|s| - 1]) + s[|s| - 1]) % 256
  }

  function Check(s: seq<Byte>): (c: seq<Byte>)
    ensures |c| == 2
  {
    [NumberHex(Sum(s) / 16), NumberHex(Sum(s) % 16)]
  }

  const AT: Byte := 64
  const STAR: Byte := 42
  const RETURN: Byte := 13
  const ADDRESS: Byte := 65

  /** A frame as the link carries it: '@', the meter address, the command, its text, and two
      checksum digits. */
  function Frame(command: Byte, text: seq<Byte>): seq<Byte> {
    var body := [ADDRESS, command] + text;
    [AT] + body + Check(body) + [STAR]
  }

  /** The bytes under the checksum. */
  function Body(data: seq<Byte>): seq<Byte>
    requires |data| >= 3
  {
    if |data| == 3 then [] else data[1..|data| - 3]
  }

  /** The parser's rule, on the bytes from '@' to '*'. */
  predicate ChecksumOk(data: seq<Byte>)
    requires |data| >= 3
  {
    var n := |data|;
    data[n - 1] == STAR && data[n - 3..n - 1] == Check(Body(data))
  }

  lemma FrameParts(command: Byte, text: seq<Byte>)
    ensures var f := Frame(command, text);
            && |f| == |text| + 6 && f[2] == command && f[3..|f| - 3] == text
            && ChecksumOk(f)
  {
    var body := [ADDRESS, command] + text;
    var f := Frame(command, text);
    assert f[1..|f| - 3] == body;
    hide Check, Sum;
    assert f[|f| - 3..|f| - 1] == Check(body);
  }

  function Total(s: seq<Byte>): nat {
    if s == [] then 0 else Total(s[..|s| - 1]) + s[|s| - 1]
  }

  /** The two checksum digits read as the sum of all bytes modulo 256. */
  lemma CheckReads(s: seq<Byte>, junk: Byte)
    ensures HexNumber(Check(s)[0], junk) * 16 + HexNumber(Check(s)[1], junk) == Total(s) % 256
  {
    SumIsTotal(s);
    hide Sum, Total;
    HexRoundTrip(Sum(s) / 16, junk);
    HexRoundTrip(Sum(s) % 16, junk);
  }

  lemma {:induction false} SumIsTotal(s: seq<Byte>)
    ensures Sum(s) == Total(s) % 256
  {
    if s != [] {
      SumIsTotal(s[..|s| - 1]);
      ModAdd(Total(s[..|s| - 1]), s[|s| - 1]);
    }
  }

  /** The read requests as the program spells them out: "@AB83*", "@AI8A*" and "@AF87*". */
  lemma KnownRequests()
    ensures Frame(66, []) == [64, 65, 66, 56, 51, 42]
    ensures Frame(73, []) == [64, 65, 73, 56, 65, 42]
    ensures Frame(70, []) == [64, 65, 70, 56, 55, 42]
  {
    hide Sum;
    TwoBytes(66);
    TwoBytes(73);
    TwoBytes(70);
  }

  lemma TwoBytes(c: Byte)
    ensures Sum([ADDRESS, c] + []) == (ADDRESS + c) % 256
  {
    var s := [ADDRESS, c] + [];
    assert s[..1] == [ADDRESS] && [ADDRESS][..0] == [];
    assert Sum([]) == 0 && Sum([ADDRESS]) == ADDRESS;
  }

  // ------------------------------------------------------------------ answers

  datatype Flag = Wait | Timeout | ErrorData | ReadOk

  datatype Link = Link(flag: Flag, value: nat)

  /** The text between the command and the checksum. */
  function TextOf(data: seq<Byte>): seq<Byte> {
    if |data| >= 6 then data[3..|data| - 3] else []
  }

  /** The alarm bits of a status answer: two of the first digit and, from a meter with a valve, one,
      four and three of the digits behind it. */
  function Alarms(a: nat, b: nat, c: nat, d: nat): nat {
    a % 4 + 4 * (b % 2) + 8 * (c % 16) + 128 * (d % 8)
  }

  /** Answers to set requests ('A', 'E', 'G') carry a result digit, answers to read requests ('B',
      'F') a hexadecimal number, status answers ('I') alarm bits, and 'R' one character. */
  function Answer(l: Link, data: seq<Byte>, junk: Byte): Link
    requires |data| >= 3
  {
    var n := |data|;
    if !ChecksumOk(data) then l.(flag := ErrorData)
    else if data[2] == 65 || data[2] == 69 || data[2] == 71 then
      l.(flag := if data[3] == 48 then ReadOk else ErrorData)
    else if data[2] == 66 || data[2] == 70 then
      Link(ReadOk, ReadHex(TextOf(data), junk) % WORD)
    else if data[2] == 73 then
      if n == 8 then Link(ReadOk, Alarms(HexNumber(data[4], junk), 0, 0, 0))
      else if n == 11 then
        Link(ReadOk, Alarms(HexNumber(data[4], junk), HexNumber(data[5], junk), HexNumber(data[6], junk), HexNumber(data[7], junk)))
      else l.(flag := ReadOk)
    else if data[2] == 82 then Link(ReadOk, data[n - 4])
    else l
  }

  /** What the other answers deliver: a set request is acknowledged by the digit '0' alone; 'R'
      delivers its last character; a bad checksum is an error; other commands are ignored. */
  lemma ResultsArrive(command: Byte, text: seq<Byte>, data: seq<Byte>, l: Link, junk: Byte)
    requires text != [] && |data| >= 3
    ensures command == 65 || command == 69 || command == 71
            ==> Answer(l, Frame(command, text), junk) == Link(if text[0] == 48 then ReadOk else ErrorData, l.value)
    ensures command == 82 ==> Answer(l, Frame(command, text), junk) == Link(ReadOk, text[|text| - 1])
    ensures command !in {65, 66, 69, 70, 71, 73, 82} ==> Answer(l, Frame(command, text), junk) == l
    ensures !ChecksumOk(data) ==> Answer(l, data, junk) == Link(ErrorData, l.value)
  {
    var f := Frame(command, text);
    FrameParts(command, text);
    hide ChecksumOk, Frame, ReadHex;
    assert f[3] == f[3..|f| - 3][0] && f[|f| - 4] == f[3..|f| - 3][|text| - 1];
  }

  /** However long the number in an answer is, the value is one of 32 bits. */
  lemma AnswerIsWord(l: Link, data: seq<Byte>, junk: Byte)
    requires l.value < 0x1_0000_0000 && |data| >= 3
    ensures Answer(l, data, junk).value < 0x1_0000_0000
  {
    hide Check, Body, Alarms, ReadHex, HexNumber;
    if |data| > 7 {
      var a, b, c := HexNumber(data[4], junk), HexNumber(data[5], junk), HexNumber(data[6], junk);
      AlarmsSmall(a, 0, 0, 0);
      AlarmsSmall(a, b, c, HexNumber(data[7], junk));
    }
    Small(ReadHex(TextOf(data), junk));
  }

  lemma Small(v: nat)
    ensures v % WORD < 0x1_0000_0000
  {
  }

  lemma AlarmsSmall(a: nat, b: nat, c: nat, d: nat)
    ensures Alarms(a, b, c, d) < 1024
  {
  }

  /** Bits 0 and 1, 2, 3 to 6, and 7 to 9 of v are those of the digits. */
  predicate AlarmBits(v: nat, a: nat, b: nat, c: nat, d: nat) {
    v % 4 == a % 4 && v / 4 % 2 == b % 2 && v / 8 % 16 == c % 16 && v / 128 == d % 8
  }

  lemma AlarmDigits(a: nat, b: nat, c: nat, d: nat)
    ensures AlarmBits(Alarms(a, b, c, d), a, b, c, d)
  {
    PackedBits(a % 4, b % 2, c % 16, d % 8);
  }

  lemma PackedBits(w: nat, x: nat, y: nat, z: nat)
    requires w < 4 && x < 2 && y < 16 && z < 8
    ensures var v := w + 4 * x + 8 * y + 128 * z; v % 4 == w && v / 4 % 2 == x && v / 8 % 16 == y && v / 128 == z
  {
    var v := w + 4 * x + 8 * y + 128 * z;
    assert v / 4 == x + 2 * y + 32 * z;
    assert v / 8 == y + 16 * z;
  }

  /** A status answer delivers the digits it was built from. */
  lemma AlarmsArrive(t: Byte, a: Byte, b: Byte, c: Byte, d: Byte, l: Link, junk: Byte)
    requires a < 16 && b < 16 && c < 16 && d < 16
    ensures Answer(l, Frame(73, [t, NumberHex(a), NumberHex(b), NumberHex(c), NumberHex(d)]), junk) == Link(ReadOk, Alarms(a, b, c, d))
    ensures AlarmBits(Alarms(a, b, c, d), a, b, c, d)
    ensures Answer(l, Frame(73, [t, NumberHex(a)]), junk) == Link(ReadOk, a % 4)
  {
    AlarmDigits(a, b, c, d);
    HexRoundTrip(a, junk);
    HexRoundTrip(b, junk);
    HexRoundTrip(c, junk);
    HexRoundTrip(d, junk);
    hide ChecksumOk, AlarmBits, NumberHex, HexNumber, Frame;
    var long, short := Frame(73, [t, NumberHex(a), NumberHex(b), NumberHex(c), NumberHex(d)]), Frame(73, [t, NumberHex(a)]);
    FrameParts(73, [t, NumberHex(a), NumberHex(b), NumberHex(c), NumberHex(d)]);
    FrameParts(73, [t, NumberHex(a)]);
    assert long[3..8] == [t, NumberHex(a), NumberHex(b), NumberHex(c), NumberHex(d)];
    assert long[4] == long[3..8][1] && long[5] == long[3..8][2] && long[6] == long[3..8][3] && long[7] == long[3..8][4];
    assert short[4] == short[3..5][1];
    FourDigits(l, long, junk, a, b, c, d);
    OneDigit(l, short, junk, a);
  }

  lemma FourDigits(l: Link, data: seq<Byte>, junk: Byte, a: Byte, b: Byte, c: Byte, d: Byte)
    requires |data| == 11 && data[2] == 73 && ChecksumOk(data)
    requires HexNumber(data[4], junk) == a && HexNumber(data[5], junk) == b && HexNumber(data[6], junk) == c && HexNumber(data[7], junk) == d
    ensures Answer(l, data, junk) == Link(ReadOk, Alarms(a, b, c, d))
  {
    hide ChecksumOk, HexNumber, Alarms;
  }

  lemma OneDigit(l: Link, data: seq<Byte>, junk: Byte, a: Byte)
    requires |data| == 8 && data[2] == 73 && ChecksumOk(data) && HexNumber(data[4], junk) == a
    ensures Answer(l, data, junk) == Link(ReadOk, a % 4)
  {
    hide ChecksumOk, HexNumber;
  }

  /** A reading of up to eight digits arrives as it was sent. */
  lemma ReadingArrives(command: Byte, v: nat, n: nat, l: Link, junk: Byte)
    requires (command == 66 || command == 70) && 1 <= n <= 8 && v < Pow(16, n)
    ensures Answer(l, Frame(command, Hex(v, n)), junk) == Link(ReadOk, v)
  {
    hide Frame, ChecksumOk, Hex, ReadHex, Pow;
    FrameParts(command, Hex(v, n));
    HexReadsBack(v, n, junk);
    EightDigits(n);
  }

  lemma {:induction false} EightDigits(n: nat)
    requires n <= 8
    ensures Pow(16, n) <= WORD
    decreases 8 - n
  {
    if n == 8 {
      assert Pow(16, 4) == 0x1_0000;
      assert Pow(16, 8) == 16 * (16 * (16 * (16 * Pow(16, 4))));
    } else {
      EightDigits(n + 1);
    }
  }

  /** One wrong byte between '@' and the checksum is always noticed. */
  lemma WrongByteNoticed(command: Byte, text: seq<Byte>, k: nat, x: Byte)
    requires 1 <= k <= |text| + 2 && x != Frame(command, text)[k]
    ensures !ChecksumOk(Frame(command, text)[k := x])
  {
    var f := Frame(command, text);
    FrameParts(command, text);
    hide Check, Sum, Frame;
    ChangedParts(f, k, x);
    var body := Body(f);
    SumChanges(body, k - 1, x);
    SameCheck(body, body[k - 1 := x]);
  }

  lemma ChangedParts(f: seq<Byte>, k: nat, x: Byte)
    requires 1 <= k < |f| - 3
    ensures Body(f[k := x]) == Body(f)[k - 1 := x] && Body(f)[k - 1] == f[k]
    ensures f[k := x][|f| - 3..|f| - 1] == f[|f| - 3..|f| - 1]
  {
  }

  lemma SameCheck(s: seq<Byte>, t: seq<Byte>)
    ensures Check(s) == Check(t) ==> Sum(s) == Sum(t)
  {
    hide Sum;
    HexRoundTrip(Sum(s) / 16, 0);
    HexRoundTrip(Sum(t) / 16, 0);
    HexRoundTrip(Sum(s) % 16, 0);
    HexRoundTrip(Sum(t) % 16, 0);
  }

  lemma {:induction false} SumChanges(s: seq<Byte>, k: nat, x: Byte)
    requires k < |s| && x != s[k]
    ensures Sum(s[k := x]) == (Sum(s) + x - s[k]) % 256 && Sum(s[k := x]) != Sum(s)
  {
    hide Sum;
    var n := |s| - 1;
    var r := s[k := x];
    SumLast(s);
    SumLast(r);
    if k == n {
      assert r[..n] == s[..n];
      LastChanged(Sum(s[..n]), x, s[n]);
    } else {
      assert r[..n] == s[..n][k := x];
      SumChanges(s[..n], k, x);
      EarlierChanged(Sum(s[..n]), x - s[k], s[n]);
    }
    OtherSum(Sum(s), x, s[k]);
  }

  lemma SumLast(s: seq<Byte>)
    requires s != []
    ensures Sum(s) == (Sum(s[..|s| - 1]) + s[|s| - 1]) % 256
  {
  }

  lemma LastChanged(t: int, x: int, y: int)
    ensures (t + x) % 256 == ((t + y) % 256 + x - y) % 256
  {
    ModAdd(t + y, x - y);
  }

  lemma EarlierChanged(t: int, d: int, y: int)
    ensures ((t + d) % 256 + y) % 256 == ((t + y) % 256 + d) % 256
  {
    ModAdd(t + d, y);
    ModAdd(t + y, d);
  }

  lemma ModAdd(a: int, b: int)
    ensures (a % 256 + b) % 256 == (a + b) % 256
  {
  }

  lemma OtherSum(a: Byte, x: Byte, y: Byte)
    requires x != y
    ensures (a + x - y) % 256 != a
  {
  }
}

/** The sender and the parser of the serial link. */
module MeterLink {
  import opened Numbers
  import opened MeterFrames

  /** What place i of a menu entry stands for, digits being coded from 100 on. */
  function Entered(zf: seq<Byte>, i: nat): int
    requires i < |zf|
  {
    zf[i] as int - 100
  }

  predicate IsDigit(zf: seq<Byte>, i: nat) {
    i < |zf| && 100 <= zf[i] < 110
  }

  /** The decimal number in places 1 to n of a menu entry; place 0 holds its length. */
  function Decimal(zf: seq<Byte>, n: nat): int
    requires n == 0 || n < |zf|
  {
    if n == 0 then 0 else Decimal(zf, n - 1) * 10 + Entered(zf, n)
  }

  lemma {:induction false} DecimalBound(zf: seq<Byte>, n: nat)
    requires (n == 0 || n < |zf|) && forall i: nat | 1 <= i <= n :: IsDigit(zf, i)
    ensures 0 <= Decimal(zf, n) < Pow(10, n)
  {
    if n > 0 {
      assert IsDigit(zf, n);
      DecimalBound(zf, n - 1);
    }
  }

  /** The decimal places of that number are the places of the entry. */
  lemma {:induction false} DecimalPlaces(zf: seq<Byte>, n: nat, i: nat)
    requires 1 <= i <= n < |zf| && forall j: nat | 1 <= j <= n :: IsDigit(zf, j)
    ensures Decimal(zf, n) >= 0 && Decimal(zf, n) / Pow(10, n - i) % 10 == Entered(zf, i)
  {
    DropLast(zf, n);
    if i < n {
      DecimalPlaces(zf, n - 1, i);
      DivideTwice(Decimal(zf, n), Pow(10, n - 1 - i));
      assert Pow(10, n - i) == 10 * Pow(10, n - 1 - i);
      hide Decimal, Pow;
    } else {
      assert Pow(10, 0) == 1;
      hide Decimal, Pow;
    }
  }

  lemma DropLast(zf: seq<Byte>, n: nat)
    requires 1 <= n < |zf| && forall j: nat | 1 <= j <= n :: IsDigit(zf, j)
    ensures Decimal(zf, n) >= 0 && Decimal(zf, n) / 10 == Decimal(zf, n - 1) && Decimal(zf, n) % 10 == Entered(zf, n)
  {
    assert IsDigit(zf, n);
    DecimalBound(zf, n - 1);
    hide Pow;
  }

  lemma DivideTwice(a: nat, b: nat)
    requires b > 0
    ensures a / (10 * b) == a / 10 / b
  {
    var q := a / (10 * b);
    var r := a / 10 / b;
    assert a == 10 * b * q + a % (10 * b);
    assert a / 10 == b * r + a / 10 % b && a == 10 * (a / 10) + a % 10;
    MulBounds(q - r, 10 * b);
    assert 10 * b * (q - r) == (10 * (a / 10 % b) + a % 10) - a % (10 * b);
  }

  lemma MulBounds(e: int, b: nat)
    ensures e >= 1 ==> b * e >= b
    ensures e <= -1 ==> b * e + b <= 0
  {
  }

  /** Half seconds since midnight for a menu entry hh:mm:ss; labels stand between the numbers. */
  function HalfSeconds(zf: seq<Byte>): int
    requires |zf| >= 9
  {
    2 * (Entered(zf, 1) * 36000 + Entered(zf, 2) * 3600 + Entered(zf, 4) * 600 + Entered(zf, 5) * 60 + Entered(zf, 7) * 10 + Entered(zf, 8))
  }

  /** The places the sender reads. */
  predicate Readable(which: nat, zf: seq<Byte>, len: nat) {
    len >= 1 && if which != 2 then len < |zf| else |zf| >= 9
  }

  /** The places it reads hold digits. */
  predicate Digits(which: nat, zf: seq<Byte>, len: nat) {
    if which != 2 then forall i: nat | 1 <= i <= len :: IsDigit(zf, i)
    else IsDigit(zf, 1) && IsDigit(zf, 2) && IsDigit(zf, 4) && IsDigit(zf, 5) && IsDigit(zf, 7) && IsDigit(zf, 8)
  }

  /** The number that was entered. */
  function Entry(which: nat, zf: seq<Byte>, len: nat): int
    requires Readable(which, zf, len)
  {
    if which != 2 then Decimal(zf, len) else HalfSeconds(zf)
  }

  /** The 32-bit number that is sent. */
  function SetValue(which: nat, zf: seq<Byte>, len: nat): nat
    requires Readable(which, zf, len)
  {
    Entry(which, zf, len) % WORD
  }

  lemma EntryBound(which: nat, zf: seq<Byte>, len: nat)
    requires Readable(which, zf, len) && Digits(which, zf, len)
    ensures 0 <= Entry(which, zf, len) < if which != 2 then Pow(10, len) else 1000000
  {
    if which != 2 {
      DecimalBound(zf, len);
    }
  }

  /** The request carries the entered number exactly when the number fits its len - 1 hexadecimal
      digits and 32 bits. */
  lemma EntryReadsBack(which: nat, zf: seq<Byte>, len: nat, junk: Byte)
    requires Readable(which, zf, len) && Digits(which, zf, len)
    ensures ReadHex(Hex(SetValue(which, zf, len), len - 1), junk) == Entry(which, zf, len)
            <==> Entry(which, zf, len) < Pow(16, len - 1) && Entry(which, zf, len) < WORD
  {
    EntryBound(which, zf, len);
    hide Entry, Pow, Hex, ReadHex;
    CarriesExactly(Entry(which, zf, len), len - 1, junk);
  }

  lemma CarriesExactly(e: nat, n: nat, junk: Byte)
    ensures ReadHex(Hex(e % WORD, n), junk) == e <==> e < Pow(16, n) && e < WORD
  {
    hide Pow, Hex, ReadHex;
    HexReadsBack(e % WORD, n, junk);
    if e < WORD {
      assert e % WORD == e;
    } else {
      assert e % WORD < e;
    }
  }

  /** Entries of six to nine digits, and times sent with six, always arrive. */
  lemma EnteredNumberFits(which: nat, zf: seq<Byte>, len: nat, junk: Byte)
    requires Readable(which, zf, len) && Digits(which, zf, len) && 6 <= len <= 9
    ensures ReadHex(Hex(SetValue(which, zf, len), len - 1), junk) == Entry(which, zf, len)
  {
    EntryBound(which, zf, len);
    EntryReadsBack(which, zf, len, junk);
    SixOrMore(len);
    Million(len);
    EightDigits(len - 1);
    hide Entry, Pow, Hex, ReadHex, SetValue;
  }

  /** An entry that does not: five nines, of which four hexadecimal digits carry 34463. */
  lemma FiveNinesLost(junk: Byte)
    ensures var zf: seq<Byte> := [5, 109, 109, 109, 109, 109];
            && Readable(0, zf, 5) && Digits(0, zf, 5) && Entry(0, zf, 5) == 99999
            && ReadHex(Hex(SetValue(0, zf, 5), 4), junk) != 99999
  {
    var zf: seq<Byte> := [5, 109, 109, 109, 109, 109];
    assert forall i: nat | 1 <= i <= 5 :: zf[i] == 109;
    assert Decimal(zf, 2) == 99 && Decimal(zf, 5) == 99999;
    assert Pow(16, 4) == 65536;
    EntryReadsBack(0, zf, 5, junk);
  }

  /** The menu entries of the program: two meter numbers, a reading, and the time of day h:m:s. */
  const METER_NUMBER: seq<Byte> := [6, 101, 102, 103, 104, 105, 106, 100, 100, 100]
  const LONG_METER_NUMBER: seq<Byte> := [8, 109, 108, 107, 106, 105, 104, 103, 102, 100]
  const READING: seq<Byte> := [6, 100, 100, 100, 100, 100, 100]

  function TimeEntry(h: nat, m: nat, s: nat): seq<Byte>
    requires h < 100 && m < 100 && s < 100
  {
    [9, h / 10 + 100, h % 10 + 100, 7, m / 10 + 100, m % 10 + 100, 8, s / 10 + 100, s % 10 + 100, 9]
  }

  /** All of them can be sent as the program sends them, and arrive. */
  lemma ProgramEntries(h: nat, m: nat, s: nat)
    requires h < 100 && m < 100 && s < 100
    ensures Readable(0, METER_NUMBER, 6) && Digits(0, METER_NUMBER, 6)
    ensures Readable(0, LONG_METER_NUMBER, 8) && Digits(0, LONG_METER_NUMBER, 8)
    ensures Readable(1, READING, 6) && Digits(1, READING, 6)
    ensures Readable(2, TimeEntry(h, m, s), 6) && Digits(2, TimeEntry(h, m, s), 6)
    ensures SetValue(2, TimeEntry(h, m, s), 6) == 2 * (3600 * h + 60 * m + s)
    ensures Entry(0, METER_NUMBER, 6) == 123456 && Entry(0, LONG_METER_NUMBER, 8) == 98765432 && Entry(1, READING, 6) == 0
  {
    assert Decimal(METER_NUMBER, 3) == 123 && Decimal(LONG_METER_NUMBER, 4) == 9876 && Decimal(READING, 3) == 0;
    assert Entry(2, TimeEntry(h, m, s), 6) == 2 * (3600 * h + 60 * m + s);
  }

  lemma {:induction false} Million(n: nat)
    requires n >= 6
    ensures Pow(10, n) >= 1000000
  {
    if n == 6 { assert Pow(10, 6) == 1000000; } else { Million(n - 1); }
  }

  /** A set request is answered by seven bytes, within forty ticks. */
  const ANSWER_LENGTH: nat := 7
  const ANSWER_TICKS: nat := 40

  const SET_COMMANDS: seq<Byte> := [65, 69, 71]
  const GET_COMMANDS: seq<Byte> := [66, 70, 73]
  const READ_TICKS: nat := 80

  /** How long an answer to a read request is; `long` asks for a long reading or the alarms of a
      meter with a valve. */
  function ReadLength(which: nat, long: bool): nat {
    if which == 0 then (if long then 14 else 12) else if which == 1 then 12 else if long then 11 else 8
  }

  /** Answers built as the meter sends them have the length that is waited for. */
  lemma AnswerLengths(v: nat, r: Byte, a: seq<Byte>)
    ensures |Frame(66, Hex(v, 6))| == ReadLength(0, false) && |Frame(66, Hex(v, 8))| == ReadLength(0, true)
    ensures |Frame(70, Hex(v, 6))| == ReadLength(1, false) == ReadLength(1, true)
    ensures |a| == 2 ==> |Frame(73, a)| == ReadLength(2, false)
    ensures |a| == 5 ==> |Frame(73, a)| == ReadLength(2, true)
    ensures |Frame(65, [r])| == |Frame(69, [r])| == |Frame(71, [r])| == ANSWER_LENGTH
  {
    hide Hex, Sum;
  }

  class Uart {
    const fsData: array<Byte>
    var command: Byte
    var flag: Flag
    var value: nat
    /** Bytes of the answer so far, its expected length, and the ticks left to wait for it. */
    var dataLen: nat
    var dataEnd: nat
    var timeout: nat

    constructor ()
      ensures fresh(fsData) && fsData.Length == 40 && State() == Link(Wait, 0)
      ensures dataLen == dataEnd == timeout == 0
    {
      fsData := new Byte[40](_ => 0);
      command, flag, value := 0, Wait, 0;
      dataLen, dataEnd, timeout := 0, 0, 0;
    }

    function State(): Link
      reads this
    {
      Link(flag, value)
    }

    /** my_uart_SetData: k bytes of fs_data are sent. */
    method SetData(which: nat, zf: seq<Byte>, len: nat) returns (k: nat)
      requires fsData.Length == 40 && which < 3 && Readable(which, zf, len) && len + 7 <= 40
      modifies this, fsData
      ensures k == len + 7
      ensures fsData[..k] == [0xFF] + Frame(SET_COMMANDS[which], Hex(SetValue(which, zf, len), len - 1)) + [13]
      ensures State() == old(State()).(flag := Wait) && command == SET_COMMANDS[which]
      ensures command == (if which == 0 then 65 else if which == 1 then 69 else 71)
      ensures dataLen == 0 && dataEnd == 7 && timeout == 40
    {
      hide Hex, Sum, Decimal, Check, SetValue;
      var number := EnteredNumber(which, zf, len);
      fsData[0], fsData[1], fsData[2], fsData[3] := 0xFF, AT, ADDRESS, SET_COMMANDS[which];
      command := SET_COMMANDS[which];
      PutHex(number, len - 1);
      ghost var body := [ADDRESS, SET_COMMANDS[which]] + Hex(number, len - 1);
      assert fsData[2..len + 3] == body by {
        assert fsData[2..len + 3] == fsData[..4][2..4] + fsData[4..4 + (len - 1)];
      }
      k := len + 3;
      PutEnd(k);
      k := k + 4;
      dataLen := 0;
      dataEnd := ANSWER_LENGTH;
      flag := Wait;
      timeout := ANSWER_TICKS;
    }

    /** my_uart_GetData: eight bytes of fs_data are sent. */
    method GetData(which: nat, long: bool)
      requires fsData.Length == 40 && which < 3
      modifies this, fsData
      ensures fsData[..8] == [0xFF] + Frame(command, []) + [13]
      ensures command == (if which == 0 then 66 else if which == 1 then 70 else 73)
      ensures State() == old(State()).(flag := Wait)
      ensures dataLen == 0 && dataEnd == ReadLength(which, long) && timeout == 80
    {
      fsData[0], fsData[1], fsData[2], fsData[3] := 0xFF, AT, ADDRESS, GET_COMMANDS[which];
      command := GET_COMMANDS[which];
      fsData[6], fsData[7] := STAR, RETURN;
      var number := (fsData[2] + fsData[3]) % 0x100;
      fsData[4], fsData[5] := NumberHex(number / 16), NumberHex(number % 16);
      TwoBytes(command);
      hide Sum;
      assert [ADDRESS, command] + [] == [ADDRESS, command];
      if which == 0 {
        dataEnd := if long then 14 else 12;
      } else if which == 1 {
        dataEnd := 12;
      } else {
        dataEnd := if long then 11 else 8;
      }
      dataLen := 0;
      flag := Wait;
      timeout := READ_TICKS;
    }

    /** Checksum and end of a request whose last text byte is fs_data[k - 1]. */
    method PutEnd(k: nat)
      requires fsData.Length == 40 && 2 <= k <= 36 && fsData[0] == 0xFF && fsData[1] == AT
      modifies fsData
      ensures var body := old(fsData[2..k]); fsData[..k + 4] == [0xFF] + ([AT] + body + Check(body) + [STAR]) + [RETURN]
    {
      hide Sum;
      ghost var body := fsData[2..k];
      var sum := CheckSum(fsData[2..k]);
      fsData[k], fsData[k + 1] := NumberHex(sum / 16), NumberHex(sum % 16);
      fsData[k + 2], fsData[k + 3] := STAR, RETURN;
      Assembled(fsData[..k + 4], body, Check(body));
    }

    lemma Assembled(s: seq<Byte>, body: seq<Byte>, check: seq<Byte>)
      requires |check| == 2 && |s| == |body| + 6 && s[0] == 0xFF && s[1] == AT && s[2..|body| + 2] == body
      requires s[|body| + 2] == check[0] && s[|body| + 3] == check[1] && s[|body| + 4] == STAR && s[|body| + 5] == RETURN
      ensures s == [0xFF] + ([AT] + body + check + [STAR]) + [RETURN]
    {
    }

    /** The decimal loop, in 32-bit arithmetic; the product is skipped after the last digit. */
    method EnteredNumber(which: nat, zf: seq<Byte>, len: nat) returns (number: nat)
      requires Readable(which, zf, len)
      ensures number == SetValue(which, zf, len)
    {
      number := 0;
      if which != 2 {
        var i := 0;
        while i < len
          invariant 0 <= i <= len
          invariant number == (if i == len then Decimal(zf, i) else Decimal(zf, i) * 10) % WORD
        {
          Wraps(Decimal(zf, i) * 10, Entered(zf, i + 1));
          number := (number + Entered(zf, i + 1)) % WORD;
          if i != len - 1 {
            WrapsTen(Decimal(zf, i + 1));
            number := (number * 10) % WORD;
          }
          i := i + 1;
        }
      } else {
        number := (Entered(zf, 1) * 36000 + Entered(zf, 2) * 3600 + Entered(zf, 4) * 600 + Entered(zf, 5) * 60 + Entered(zf, 7) * 10 + Entered(zf, 8)) % WORD;
        WrapsTwice(HalfSeconds(zf) / 2);
        number := (number * 2) % WORD;
      }
    }

    lemma WrapsTen(a: int)
      ensures (a % WORD * 10) % WORD == (a * 10) % WORD
    {
    }

    lemma WrapsTwice(a: int)
      ensures (a % WORD * 2) % WORD == (2 * a) % WORD
    {
    }

    /** The digit loop: the lowest digit goes to the last place. */
    method PutHex(v: nat, n: nat)
      requires fsData.Length == 40 && n + 8 <= 40
      modifies fsData
      ensures fsData[4..4 + n] == Hex(v, n)
      ensures fsData[..4] == old(fsData[..4])
    {
      var i, left := 0, v;
      assert fsData[4 + n..4 + n] == [];
      assert Hex(v, n) == Hex(v, n) + [];
      while i < n
        invariant 0 <= i <= n
        invariant fsData[..4] == old(fsData[..4])
        invariant Hex(v, n) == Hex(left, n - i) + fsData[4 + n - i..4 + n]
      {
        ghost var tail := fsData[4 + n - i..4 + n];
        ghost var head := Hex(left / 16, n - i - 1);
        fsData[4 + (n - 1) - i] := NumberHex(left % 16);
        assert fsData[4 + n - i - 1..4 + n] == [NumberHex(left % 16)] + tail;
        assert head + [NumberHex(left % 16)] + tail == head + ([NumberHex(left % 16)] + tail);
        left := left / 16;
        i := i + 1;
      }
      assert Hex(left, 0) == [];
    }

    /** The checksum loops of sender and parser. */
    method CheckSum(s: seq<Byte>) returns (sum: Byte)
      ensures sum == Sum(s)
    {
      var number: nat := 0;
      var i := 0;
      while i < |s|
        invariant 0 <= i <= |s| && number == Sum(s[..i])
      {
        assert s[..i + 1][..i] == s[..i];
        number := (number + s[i]) % 256;
        i := i + 1;
      }
      assert s[..i] == s;
      sum := number;
    }

    /** my_data_parsing; it looks at the last three bytes. */
    method Parse(data: seq<Byte>, junk: Byte)
      requires |data| >= 3
      modifies this`flag, this`value, this`timeout
      ensures State() == Answer(old(State()), data, junk) && timeout == 0
    {
      hide ReadHex, Sum;
      var n := |data|;
      var sum := CheckSum(Body(data));
      assert data[n - 3..n - 1] == [data[n - 3], data[n - 2]];
      if data[n - 1] == STAR && data[n - 3] == NumberHex(sum / 16) && data[n - 2] == NumberHex(sum % 16) {
        if data[2] == 65 || data[2] == 69 || data[2] == 71 {
          flag := if data[3] == 48 then ReadOk else ErrorData;
        } else if data[2] == 66 || data[2] == 70 {
          flag := ReadOk;
          value := ReadNumber(TextOf(data), junk);
        } else if data[2] == 73 {
          flag := ReadOk;
          if n == 8 {
            value := AlarmBits(HexNumber(data[4], junk), 0, 0, 0);
          } else if n == 11 {
            value := AlarmBits(HexNumber(data[4], junk), HexNumber(data[5], junk), HexNumber(data[6], junk), HexNumber(data[7], junk));
          }
        } else if data[2] == 82 {
          flag := ReadOk;
          value := data[n - 4];
        }
      } else {
        flag := ErrorData;
      }
      timeout := 0;
    }

    /** The alarm bits, tested one by one. */
    method AlarmBits(a: Byte, b: Byte, c: Byte, d: Byte) returns (v: nat)
      ensures v == Alarms(a, b, c, d)
    {
      v := SetAlarms(a % 2 == 1, a / 2 % 2 == 1, b % 2 == 1, c % 2 == 1, c / 2 % 2 == 1, c / 4 % 2 == 1, c / 8 % 2 == 1,
                     d % 2 == 1, d / 2 % 2 == 1, d / 4 % 2 == 1);
      BitsAreAlarms(a, b, c, d);
    }

    method SetAlarms(a0: bool, a1: bool, b0: bool, c0: bool, c1: bool, c2: bool, c3: bool, d0: bool, d1: bool, d2: bool)
        returns (v: nat)
      ensures v == Bit(a0) + 2 * Bit(a1) + 4 * Bit(b0) + 8 * (Bit(c0) + 2 * Bit(c1) + 4 * Bit(c2) + 8 * Bit(c3))
                   + 128 * (Bit(d0) + 2 * Bit(d1) + 4 * Bit(d2))
    {
      hide Bit;
      v := SetBit(0, a0, 0x01);
      v := SetBit(v, a1, 0x02);
      v := SetBit(v, b0, 0x04);
      v := SetBit(v, c0, 0x08);
      v := SetBit(v, c1, 0x10);
      v := SetBit(v, c2, 0x20);
      v := SetBit(v, c3, 0x40);
      v := SetBit(v, d0, 0x80);
      v := SetBit(v, d1, 0x100);
      v := SetBit(v, d2, 0x200);
    }

    /** Sets a bit that is not set yet. */
    method SetBit(v: nat, on: bool, mask: nat) returns (w: nat)
      ensures w == v + mask * Bit(on)
    {
      w := if on then v + mask else v;
    }

    lemma BitsAreAlarms(a: Byte, b: Byte, c: Byte, d: Byte)
      ensures Alarms(a, b, c, d) ==
              Bit(a % 2 == 1) + 2 * Bit(a / 2 % 2 == 1) + 4 * Bit(b % 2 == 1)
              + 8 * (Bit(c % 2 == 1) + 2 * Bit(c / 2 % 2 == 1) + 4 * Bit(c / 4 % 2 == 1) + 8 * Bit(c / 8 % 2 == 1))
              + 128 * (Bit(d % 2 == 1) + 2 * Bit(d / 2 % 2 == 1) + 4 * Bit(d / 4 % 2 == 1))
    {
      hide Bit;
      LowBits(a);
      LowBits(b);
      LowBits(c);
      LowBits(d);
    }

    lemma LowBits(n: nat)
      ensures n % 2 == Bit(n % 2 == 1)
      ensures n % 4 == Bit(n % 2 == 1) + 2 * Bit(n / 2 % 2 == 1)
      ensures n % 8 == Bit(n % 2 == 1) + 2 * Bit(n / 2 % 2 == 1) + 4 * Bit(n / 4 % 2 == 1)
      ensures n % 16 == Bit(n % 2 == 1) + 2 * Bit(n / 2 % 2 == 1) + 4 * Bit(n / 4 % 2 == 1) + 8 * Bit(n / 8 % 2 == 1)
    {
      LowBit(n);
      LowBit(n / 2);
      LowBit(n / 4);
      LowBit(n / 8);
      TwoLow(n);
      ThreeLow(n);
      FourLow(n);
      hide Bit;
    }

    lemma LowBit(n: nat)
      ensures n % 2 == Bit(n % 2 == 1)
    {
    }

    lemma TwoLow(n: nat)
      ensures n % 4 == n % 2 + 2 * (n / 2 % 2)
    {
    }

    lemma ThreeLow(n: nat)
      ensures n % 8 == n % 4 + 4 * (n / 4 % 2)
    {
    }

    lemma FourLow(n: nat)
      ensures n % 16 == n % 8 + 8 * (n / 8 % 2)
    {
    }

    /** The digit loop of the parser, in 32-bit arithmetic; no shift after the last digit. */
    method ReadNumber(s: seq<Byte>, junk: Byte) returns (v: nat)
      ensures v == ReadHex(s, junk) % WORD
    {
      v := 0;
      var i := 0;
      while i < |s|
        invariant 0 <= i <= |s|
        invariant v == (if i == |s| then ReadHex(s[..i], junk) else ReadHex(s[..i], junk) * 16) % WORD
      {
        assert s[..i + 1][..i] == s[..i];
        Wraps(ReadHex(s[..i], junk) * 16, HexNumber(s[i], junk));
        v := (v + HexNumber(s[i], junk)) % WORD;
        if i < |s| - 1 {
          Wraps16(ReadHex(s[..i + 1], junk));
          v := (v * 16) % WORD;
        }
        i := i + 1;
      }
      assert s[..i] == s;
    }

    lemma Wraps(a: int, b: int)
      ensures (a % WORD + b) % WORD == (a + b) % WORD
    {
    }

    lemma Wraps16(a: nat)
      ensures (a % WORD * 16) % WORD == (a * 16) % WORD
    {
    }
  }
}
