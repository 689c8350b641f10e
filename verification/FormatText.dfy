/** What the kernel's formatter prints, as text of any length. */
module FormatText {
  import opened Numbers

  const WORD: nat := 0x1_0000_0000

  type Word = w: int | 0 <= w < WORD

  datatype Flags = Flags(left: bool, plus: bool, space: bool, special: bool, zeropad: bool, sign: bool, large: bool)

  const NO_FLAGS := Flags(false, false, false, false, false, false, false)

  /** The text a char pointer argument refers to. */
  datatype Text = Null | Str(s: string)

  /** One variable argument, as a 32-bit integer and as a char pointer. */
  datatype Arg = Arg(word: Word, text: Text)

  function ArgAt(args: seq<Arg>, k: nat): Arg {
    if k < |args| then args[k] else Arg(0, Null)
  }

  function Signed(w: Word): int {
    if w >= 0x8000_0000 then w - WORD else w
  }

  function Fill(c: char, n: int): (s: string)
    ensures |s| == Max(n, 0)
    ensures forall i | 0 <= i < |s| :: s[i] == c
  {
    if n <= 0 then [] else [c] + Fill(c, n - 1)
  }

  // ------------------------------------------------------------------ numbers

  /** `divide` knows two bases only. */
  function Radix(base: nat): nat {
    if base == 10 then 10 else 16
  }

  function Digit(d: nat, large: bool): char
    requires d < 16
  {
    if d < 10 then '0' + d as char else if large then 'A' + (d - 10) as char else 'a' + (d - 10) as char
  }

  function Quot(u: nat, radix: nat): (q: nat)
    requires radix >= 2
    ensures u >= radix ==> 0 < q < u
  {
    assert u >= radix ==> 0 < u / radix < u by { if u >= radix { QuotBounds(u, radix); } }
    u / radix
  }

  lemma QuotBounds(u: nat, radix: nat)
    requires u >= radix >= 2
    ensures 0 < u / radix < u
  {
    assert u == radix * (u / radix) + u % radix;
  }

  function Rem(u: nat, radix: nat): (m: nat)
    requires radix >= 2
    ensures m < radix
  {
    u % radix
  }

  lemma QuotRem(u: nat, radix: nat)
    requires radix >= 2
    ensures u == Quot(u, radix) * radix + Rem(u, radix)
  {
  }

  function Digits(u: nat, radix: nat, large: bool): (s: string)
    requires 2 <= radix <= 16
    ensures |s| >= 1
    decreases u
  {
    if u < radix then [Digit(u, large)] else Digits(Quot(u, radix), radix, large) + [Digit(Rem(u, radix), large)]
  }

  function SignText(num: Word, f: Flags): string {
    if !f.sign then ""
    else if Signed(num) < 0 then "-"
    else if f.plus then "+"
    else if f.space then " "
    else ""
  }

  function Magnitude(num: Word, f: Flags): Word {
    if f.sign && Signed(num) < 0 then WORD - num else num
  }

  /** The digits with their leading zeros; none at all for precision 0. */
  function Body(num: Word, base: nat, precision: int, f: Flags): string {
    var digits := Digits(Magnitude(num, f), Radix(base), f.large);
    if precision == 0 then "" else Fill('0', precision - |digits|) + digits
  }

  /** How far the field is wider than the sign and the digits, printed or not. */
  function Gap(num: Word, base: nat, width: int, precision: int, f: Flags): int {
    Max(width - Max(|Digits(Magnitude(num, f), Radix(base), f.large)|, precision) - |SignText(num, f)|, 0)
  }

  function NumberText(num: Word, base: nat, width: int, precision: int, f: Flags): string {
    var gap, sign, body := Gap(num, base, width, precision, f), SignText(num, f), Body(num, base, precision, f);
    if f.left then sign + body + Fill(' ', gap)
    else if f.zeropad then sign + Fill('0', gap) + body
    else Fill(' ', gap) + sign + body
  }

  /** How far print_number advances the output, whatever the buffer.  With precision 0 the digits
      count towards the field width but are not printed. */
  lemma NumberLength(num: Word, base: nat, width: int, precision: int, f: Flags)
    ensures var n := |Digits(Magnitude(num, f), Radix(base), f.large)|;
            |NumberText(num, base, width, precision, f)|
            == Max(width, |SignText(num, f)| + Max(n, precision)) - if precision == 0 then n else 0
  {
    hide Digits, Magnitude, SignText;
  }

  function DigitValue(c: char): nat {
    if '0' <= c <= '9' then (c - '0') as nat
    else if 'a' <= c <= 'f' then 10 + (c - 'a') as nat
    else if 'A' <= c <= 'F' then 10 + (c - 'A') as nat
    else 0
  }

  function ReadBack(s: string, radix: nat): nat {
    if s == [] then 0 else ReadBack(s[..|s| - 1], radix) * radix + DigitValue(s[|s| - 1])
  }

  lemma DigitRead(d: nat, large: bool)
    requires d < 16
    ensures DigitValue(Digit(d, large)) == d
  {
  }

  /** One step of each of the recursive functions. */
  lemma LastDigits(u: nat, radix: nat, large: bool)
    requires 2 <= radix <= 16
    ensures u < radix ==> Digits(u, radix, large) == [Digit(u, large)]
    ensures u >= radix ==> Digits(u, radix, large) == Digits(Quot(u, radix), radix, large) + [Digit(Rem(u, radix), large)]
  {
    hide Quot, Rem;
  }

  lemma ReadLast(s: string, c: char, radix: nat)
    ensures ReadBack(s + [c], radix) == ReadBack(s, radix) * radix + DigitValue(c)
  {
    hide DigitValue;
    assert (s + [c])[..|s|] == s;
  }

  lemma ReadNothing(radix: nat)
    ensures ReadBack([], radix) == 0
  {
  }

  lemma {:induction false} DigitsReadBack(u: nat, radix: nat, large: bool)
    requires 2 <= radix <= 16
    ensures ReadBack(Digits(u, radix, large), radix) == u
    decreases u
  {
    hide Quot, Rem, Digits, Digit, ReadBack, DigitValue;
    LastDigits(u, radix, large);
    if u < radix {
      DigitRead(u, large);
      ReadNothing(radix);
      ReadLast([], Digit(u, large), radix);
      assert [] + [Digit(u, large)] == [Digit(u, large)];
    } else {
      var q, m := Quot(u, radix), Rem(u, radix);
      DigitsReadBack(q, radix, large);
      DigitRead(m, large);
      ReadLast(Digits(q, radix, large), Digit(m, large), radix);
      QuotRem(u, radix);
    }
  }

  lemma {:induction false} ZerosReadBack(n: int, s: string, radix: nat)
    ensures ReadBack(Fill('0', n) + s, radix) == ReadBack(s, radix)
    decreases |s|, n
  {
    var t := Fill('0', n) + s;
    if s == [] {
      FillReadsZero(n, radix);
      assert t == Fill('0', n);
    } else {
      assert t[..|t| - 1] == Fill('0', n) + s[..|s| - 1];
      ZerosReadBack(n, s[..|s| - 1], radix);
    }
  }

  lemma {:induction false} FillReadsZero(n: int, radix: nat)
    ensures ReadBack(Fill('0', n), radix) == 0
    decreases Max(n, 0)
  {
    if n > 0 {
      var s := Fill('0', n);
      assert s[..|s| - 1] == Fill('0', n - 1);
      FillReadsZero(n - 1, radix);
    }
  }

  /** The printed digits, padding zeros included, read back to the number, for decimal and
      hexadecimal conversions of any precision but 0. */
  lemma NumberReadsBack(num: Word, base: nat, precision: int, f: Flags)
    requires base == 10 || base == 16
    ensures precision != 0 ==> ReadBack(Body(num, base, precision, f), base) == Magnitude(num, f)
    ensures precision == 0 ==> Body(num, base, precision, f) == ""
  {
    hide Digits, ReadBack, Magnitude, Fill, Radix;
    var u := Magnitude(num, f);
    var digits := Digits(u, base, f.large);
    DigitsReadBack(u, base, f.large);
    KnownRadix(base);
    ZerosReadBack(precision - |digits|, digits, base);
    assert precision != 0 ==> Body(num, base, precision, f) == Fill('0', precision - |digits|) + digits;
  }

  lemma KnownRadix(base: nat)
    requires base == 10 || base == 16
    ensures Radix(base) == base
  {
  }

  /** The sign and the magnitude make up the value of a signed conversion. */
  lemma SignAndMagnitude(num: Word, f: Flags)
    requires f.sign
    ensures Signed(num) == if SignText(num, f) == "-" then 0 - Magnitude(num, f) else Magnitude(num, f)
  {
    assert "-"[0] == '-' && "+"[0] == '+' && " "[0] == ' ';
  }

  /** %o prints hexadecimal digits: they are octal digits only for numbers below 8. */
  lemma OctalIsHexadecimal(u: nat, large: bool)
    ensures Digits(u, Radix(8), large) == Digits(u, 8, large) <==> u < 8
  {
    if u >= 8 {
      var s := Digits(u, 8, large);
      if s == Digits(u, 16, large) {
        DigitsReadBack(u, 8, large);
        DigitsReadBack(u, 16, large);
        LeadingDigit(u, 8, large);
        SameDigits(s);
        assert false;
      }
    }
  }

  lemma {:induction false} LeadingDigit(u: nat, radix: nat, large: bool)
    requires 2 <= radix <= 16 && u > 0
    ensures DigitValue(Digits(u, radix, large)[0]) > 0
    ensures u >= radix ==> |Digits(u, radix, large)| >= 2
    decreases u
  {
    hide Quot, Rem, DigitValue, Digit;
    if u < radix {
      DigitRead(u, large);
    } else {
      LeadingDigit(Quot(u, radix), radix, large);
    }
  }

  /** The same digits mean more in base 16 than in base 8, from the second place on. */
  lemma {:induction false} SameDigits(s: string)
    requires s != [] && DigitValue(s[0]) > 0
    ensures ReadBack(s, 16) >= ReadBack(s, 8) > 0
    ensures |s| >= 2 ==> ReadBack(s, 16) > ReadBack(s, 8)
  {
    var t := s[..|s| - 1];
    if |s| >= 2 {
      SameDigits(t);
    } else {
      assert ReadBack(t, 16) == 0 == ReadBack(t, 8);
    }
  }

  // ------------------------------------------------------------------ format strings

  /** The character at i; a C string ends with NUL. */
  function At(fmt: string, i: nat): char {
    if i < |fmt| then fmt[i] else '\0'
  }

  predicate IsDigit(c: char) {
    '0' <= c <= '9'
  }

  datatype Parsed = Parsed(flags: Flags, width: int, precision: int, qualifier: char, i: nat, k: nat)

  function ScanFlags(fmt: string, i: nat, f: Flags): (r: (Flags, nat))
    requires i <= |fmt|
    ensures i <= r.1 <= |fmt|
    decreases |fmt| - i
  {
    if At(fmt, i) == '-' then ScanFlags(fmt, i + 1, f.(left := true))
    else if At(fmt, i) == '+' then ScanFlags(fmt, i + 1, f.(plus := true))
    else if At(fmt, i) == ' ' then ScanFlags(fmt, i + 1, f.(space := true))
    else if At(fmt, i) == '#' then ScanFlags(fmt, i + 1, f.(special := true))
    else if At(fmt, i) == '0' then ScanFlags(fmt, i + 1, f.(zeropad := true))
    else (f, i)
  }

  function SkipAtoi(fmt: string, i: nat, acc: nat): (r: (nat, nat))
    requires i <= |fmt|
    ensures i <= r.1 <= |fmt|
    decreases |fmt| - i
  {
    if IsDigit(At(fmt, i)) then SkipAtoi(fmt, i + 1, acc * 10 + (At(fmt, i) - '0') as nat) else (acc, i)
  }

  /** A `*` takes the width from the next argument; a negative one means left adjustment. */
  function ScanWidth(fmt: string, p: Parsed, args: seq<Arg>): (r: Parsed)
    requires p.i <= |fmt|
    ensures p.i <= r.i <= |fmt|
  {
    if IsDigit(At(fmt, p.i)) then
      var (w, j) := SkipAtoi(fmt, p.i, 0);
      p.(width := w, i := j)
    else if At(fmt, p.i) == '*' then
      var w := Signed(ArgAt(args, p.k).word);
      if w < 0 then p.(width := -w, flags := p.flags.(left := true), i := p.i + 1, k := p.k + 1)
      else p.(width := w, i := p.i + 1, k := p.k + 1)
    else p.(width := -1)
  }

  function ScanPrecision(fmt: string, p: Parsed, args: seq<Arg>): (r: Parsed)
    requires p.i <= |fmt|
    ensures p.i <= r.i <= |fmt|
  {
    if At(fmt, p.i) != '.' then p.(precision := -1)
    else if IsDigit(At(fmt, p.i + 1)) then
      var (n, j) := SkipAtoi(fmt, p.i + 1, 0);
      p.(precision := n, i := j)
    else if At(fmt, p.i + 1) == '*' then
      p.(precision := Max(Signed(ArgAt(args, p.k).word), 0), i := p.i + 2, k := p.k + 1)
    else p.(precision := 0, i := p.i + 1)
  }

  function ScanQualifier(fmt: string, p: Parsed): (r: Parsed)
    requires p.i <= |fmt|
    ensures p.i <= r.i <= |fmt|
  {
    if At(fmt, p.i) == 'h' || At(fmt, p.i) == 'l' then p.(qualifier := At(fmt, p.i), i := p.i + 1)
    else p.(qualifier := '\0')
  }

  /** Everything between '%' at i - 1 and the conversion character. */
  function Parse(fmt: string, i: nat, args: seq<Arg>, k: nat): (r: Parsed)
    requires i <= |fmt|
    ensures i <= r.i <= |fmt|
  {
    var (f, j) := ScanFlags(fmt, i, NO_FLAGS);
    ScanQualifier(fmt, ScanPrecision(fmt, ScanWidth(fmt, Parsed(f, -1, -1, '\0', j, k), args), args))
  }

  function CharText(w: Word, p: Parsed): string {
    var c := [(w % 256) as char];
    if p.flags.left then c + Fill(' ', p.width - 1) else Fill(' ', p.width - 1) + c
  }

  function StringText(t: Text, p: Parsed): string {
    var s := if t.Null? then "(NULL)" else t.s;
    var len := if 0 < p.precision < |s| then p.precision else |s|;
    if p.flags.left then s[..len] + Fill(' ', p.width - len) else Fill(' ', p.width - len) + s[..len]
  }

  function PointerText(w: Word, p: Parsed): string {
    if p.width == -1 then NumberText(w, 16, 8, p.precision, p.flags.(zeropad := true))
    else NumberText(w, 16, p.width, p.precision, p.flags)
  }

  predicate Integral(c: char) {
    c == 'o' || c == 'X' || c == 'x' || c == 'd' || c == 'i' || c == 'u'
  }

  function BaseOf(c: char): nat {
    if c == 'o' then 8 else if c == 'x' || c == 'X' then 16 else 10
  }

  function FlagsFor(c: char, f: Flags): Flags {
    if c == 'X' then f.(large := true) else if c == 'd' || c == 'i' then f.(sign := true) else f
  }

  /** The value a conversion takes from its argument: 'h' cuts it to 16 bits. */
  function ValueOf(w: Word, qualifier: char, sign: bool): Word {
    if qualifier != 'h' then w
    else if sign && w % 0x1_0000 >= 0x8000 then w % 0x1_0000 + (WORD - 0x1_0000)
    else w % 0x1_0000
  }

  function IntegerText(c: char, w: Word, p: Parsed): string {
    var f := FlagsFor(c, p.flags);
    NumberText(ValueOf(w, p.qualifier, f.sign), BaseOf(c), p.width, p.precision, f)
  }

  /** What a conversion prints, where the format goes on, and the next argument. */
  datatype Converted = Converted(text: string, i: nat, k: nat)

  function Convert(fmt: string, p: Parsed, args: seq<Arg>): (r: Converted)
    requires p.i <= |fmt|
    ensures p.i <= r.i <= |fmt|
  {
    var c, arg := At(fmt, p.i), ArgAt(args, p.k);
    if p.i == |fmt| then Converted("%", p.i, p.k)
    else if c == 'c' then Converted(CharText(arg.word, p), p.i + 1, p.k + 1)
    else if c == 's' then Converted(StringText(arg.text, p), p.i + 1, p.k + 1)
    else if c == 'p' then Converted(PointerText(arg.word, p), p.i + 1, p.k + 1)
    else if c == '%' then Converted("%", p.i + 1, p.k)
    else if Integral(c) then Converted(IntegerText(c, arg.word, p), p.i + 1, p.k + 1)
    else Converted(['%', c], p.i + 1, p.k)
  }

  /** The whole output for the format from i on, with the arguments from k on. */
  function Format(fmt: string, i: nat, args: seq<Arg>, k: nat): string
    requires i <= |fmt|
    decreases |fmt| - i
  {
    if i == |fmt| then ""
    else if fmt[i] != '%' then [fmt[i]] + Format(fmt, i + 1, args, k)
    else
      var r := Convert(fmt, Parse(fmt, i + 1, args, k), args);
      r.text + Format(fmt, r.i, args, r.k)
  }

  /** Text without '%' is printed as it is. */
  lemma {:induction false} LiteralText(fmt: string, i: nat, args: seq<Arg>, k: nat)
    requires i <= |fmt| && '%' !in fmt
    ensures Format(fmt, i, args, k) == fmt[i..]
    decreases |fmt| - i
  {
    if i < |fmt| {
      assert fmt[i] in fmt;
      LiteralText(fmt, i + 1, args, k);
    }
  }

  /** The number a reader sees in an optional minus sign and decimal digits. */
  function ReadDecimal(s: string): int {
    if s != [] && s[0] == '-' then 0 - ReadBack(s[1..], 10) else ReadBack(s, 10)
  }

  /** "%d" prints every 32-bit number so that it reads back to itself. */
  lemma DecimalRoundTrip(w: Word, t: Text)
    ensures ReadDecimal(Format("%d", 0, [Arg(w, t)], 0)) == Signed(w)
  {
    var fmt, args, f := "%d", [Arg(w, t)], NO_FLAGS.(sign := true);
    assert ScanFlags(fmt, 1, NO_FLAGS) == (NO_FLAGS, 1);
    var p := Parsed(NO_FLAGS, -1, -1, '\0', 1, 0);
    assert Parse(fmt, 1, args, 0) == p;
    var n := NumberText(w, 10, -1, -1, f);
    assert Convert(fmt, p, args) == Converted(n, 2, 1);
    assert Format(fmt, 2, args, 1) == "";
    assert Format(fmt, 0, args, 0) == n + "" == n;
    hide Format, Convert, Parse, ScanFlags;
    NumberReadsBack(w, 10, -1, f);
    SignAndMagnitude(w, f);
    DigitsAreNotMinus(Magnitude(w, f), 10, false);
    var body := Body(w, 10, -1, f);
    assert body == Digits(Magnitude(w, f), 10, false);
    assert n == SignText(w, f) + body;
    if SignText(w, f) == "-" {
      assert n[1..] == body;
    } else {
      assert n == body;
    }
  }

  lemma {:induction false} DigitsAreNotMinus(u: nat, radix: nat, large: bool)
    requires 2 <= radix <= 16
    ensures Digits(u, radix, large)[0] != '-'
    decreases u
  {
    hide Quot, Rem;
    if u >= radix { DigitsAreNotMinus(Quot(u, radix), radix, large); }
  }
}
