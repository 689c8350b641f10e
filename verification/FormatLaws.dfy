/** What the formatter's output is, stated on its format string and its arguments alone: where each
    part of a directive ends, and what each conversion prints. */
module FormatLaws {
  import opened Numbers
  import opened FormatText

  // ------------------------------------------------------------------ numerals

  predicate LegalDigit(c: char, base: nat, upper: bool) {
    '0' <= c <= '9' || (base == 16 && if upper then 'A' <= c <= 'F' else 'a' <= c <= 'f')
  }

  /** The shortest numeral of u in this base and letter case. */
  predicate Numeral(s: string, u: nat, base: nat, upper: bool) {
    && s != [] && (forall c | c in s :: LegalDigit(c, base, upper))
    && ReadBack(s, base) == u && (|s| > 1 ==> s[0] != '0')
  }

  lemma DigitLegal(d: nat, base: nat, upper: bool)
    requires d < base && (base == 10 || base == 16)
    ensures LegalDigit(Digit(d, upper), base, upper)
    ensures d > 0 ==> Digit(d, upper) != '0'
  {
  }

  lemma {:induction false} DigitsLegal(u: nat, base: nat, upper: bool)
    requires base == 10 || base == 16
    ensures forall c | c in Digits(u, base, upper) :: LegalDigit(c, base, upper)
    decreases u
  {
    hide Digits, Digit, LegalDigit, Quot, Rem;
    LastDigits(u, base, upper);
    if u < base {
      DigitLegal(u, base, upper);
    } else {
      DigitLegal(Rem(u, base), base, upper);
      DigitsLegal(Quot(u, base), base, upper);
    }
  }

  lemma DigitsAreNumeral(u: nat, base: nat, upper: bool)
    requires base == 10 || base == 16
    ensures Numeral(Digits(u, base, upper), u, base, upper)
  {
    DigitsLegal(u, base, upper);
    DigitsReadBack(u, base, upper);
    if u > 0 { LeadingDigit(u, base, upper); } else { LastDigits(u, base, upper); }
    hide Digits, ReadBack, LegalDigit;
    assert DigitValue('0') == 0;
  }

  /** There is only one. */
  lemma {:induction false} NumeralOnce(s: string, s': string, u: nat, base: nat, upper: bool)
    requires (base == 10 || base == 16) && Numeral(s, u, base, upper) && Numeral(s', u, base, upper)
    ensures s == s'
    decreases |s|
  {
    LastOfNumeral(s, u, base, upper);
    LastOfNumeral(s', u, base, upper);
    hide Numeral, ReadBack;
    var n, n' := |s| - 1, |s'| - 1;
    if n > 0 && n' > 0 {
      NumeralOnce(s[..n], s'[..n'], u / base, base, upper);
    }
    assert s == s[..n] + [s[n]] && s' == s'[..n'] + [s'[n']];
    assert n == 0 ==> s[..n] == [];
  }

  /** The last digit is the remainder, and those in front of it are the numeral of the quotient. */
  lemma LastOfNumeral(s: string, u: nat, base: nat, upper: bool)
    requires (base == 10 || base == 16) && Numeral(s, u, base, upper)
    ensures s != [] && s[|s| - 1] == Digit(u % base, upper)
    ensures |s| == 1 <==> u < base
    ensures |s| > 1 ==> Numeral(s[..|s| - 1], u / base, base, upper)
  {
    var c, t := s[|s| - 1], s[..|s| - 1];
    assert s == t + [c] && LegalDigit(c, base, upper);
    ReadLast(t, c, base);
    LegalValue(c, base, upper);
    QuotientOf(ReadBack(t, base), DigitValue(c), base, u);
    ReadNothing(base);
    hide ReadBack, LegalDigit, DigitValue, Digit;
    if t != [] {
      assert forall x | x in t :: x in s;
      assert t[0] == s[0];
      LegalValue(t[0], base, upper);
      FrontReads(t, base);
    }
  }

  lemma LegalValue(c: char, base: nat, upper: bool)
    requires (base == 10 || base == 16) && LegalDigit(c, base, upper)
    ensures DigitValue(c) < base && c == Digit(DigitValue(c), upper)
    ensures c != '0' ==> DigitValue(c) > 0
  {
  }

  lemma QuotientOf(q: nat, d: nat, base: nat, u: nat)
    requires d < base && u == q * base + d
    ensures u / base == q && u % base == d
    ensures q == 0 ==> u < base
    ensures q > 0 ==> u >= base
  {
    MulBounds(q - u / base, base);
    MulBounds(q, base);
    assert (q - u / base) * base == u % base - d;
  }

  lemma MulBounds(e: int, base: nat)
    ensures e >= 1 ==> e * base >= base
    ensures e <= -1 ==> e * base + base <= 0
  {
  }

  /** A numeral with a first digit other than 0 reads as a positive number. */
  lemma {:induction false} FrontReads(t: string, base: nat)
    requires base > 0 && t != []
    ensures ReadBack(t, base) >= DigitValue(t[0])
  {
    hide DigitValue, ReadBack;
    var n := |t| - 1;
    var front := t[..n];
    assert t == front + [t[n]];
    ReadLast(front, t[n], base);
    ReadNothing(base);
    if n > 0 {
      FrontReads(front, base);
      MulMore(ReadBack(front, base), base);
    }
  }

  lemma MulMore(q: nat, base: nat)
    requires base > 0
    ensures q * base >= q
  {
  }

  /** `shown` with its sign in a field: blanks in front, or behind, or zeros behind the sign. */
  predicate InField(text: string, sign: string, shown: string, gap: nat, left: bool, zeropad: bool) {
    text == if left then sign + shown + Fill(' ', gap)
            else if zeropad then sign + Fill('0', gap) + shown
            else Fill(' ', gap) + sign + shown
  }

  /** `text` is the number `value` with at least `precision` digits in a field of at least `width`
      characters.  Precision 0 prints no digits, but the field is no wider for it. */
  ghost predicate PrintsNumber(text: string, value: int, base: nat, upper: bool, sign: string, width: int, precision: int, left: bool, zeropad: bool) {
    exists digits: string | Numeral(digits, if value < 0 then -value else value, base, upper) ::
      InField(text, sign, if precision == 0 then "" else Fill('0', precision - |digits|) + digits,
              Max(width - |sign| - Max(|digits|, precision), 0), left, zeropad)
  }

  /** The value of an argument, read with or without sign. */
  function ValueAs(num: Word, signed: bool): int {
    if signed && num >= 0x8000_0000 then num - 0x1_0000_0000 else num
  }

  function SignAs(value: int, f: Flags): string {
    if !f.sign then "" else if value < 0 then "-" else if f.plus then "+" else if f.space then " " else ""
  }

  lemma SignsAgree(num: Word, f: Flags)
    ensures var value := ValueAs(num, f.sign);
            SignText(num, f) == SignAs(value, f) && Magnitude(num, f) == if value < 0 then -value else value
  {
  }

  lemma NumberPrints(num: Word, base: nat, width: int, precision: int, f: Flags)
    ensures var value := ValueAs(num, f.sign);
            PrintsNumber(NumberText(num, base, width, precision, f), value, if base == 10 then 10 else 16, f.large,
                         SignAs(value, f), width, precision, f.left, f.zeropad)
  {
    var text, sign, value := NumberText(num, base, width, precision, f), SignText(num, f), ValueAs(num, f.sign);
    var digits := Digits(Magnitude(num, f), Radix(base), f.large);
    DigitsAreNumeral(Magnitude(num, f), Radix(base), f.large);
    SignsAgree(num, f);
    FieldOf(num, base, width, precision, f);
    hide Digits, Numeral, NumberText, SignText, Magnitude, ValueAs, SignAs, InField, Fill, PrintsNumber;
    Printed(text, value, Radix(base), f.large, sign, width, precision, f.left, f.zeropad, digits);
  }

  lemma Printed(text: string, value: int, base: nat, upper: bool, sign: string, width: int, precision: int, left: bool, zeropad: bool, digits: string)
    requires Numeral(digits, if value < 0 then -value else value, base, upper)
    requires InField(text, sign, if precision == 0 then "" else Fill('0', precision - |digits|) + digits,
                     Max(width - |sign| - Max(|digits|, precision), 0), left, zeropad)
    ensures PrintsNumber(text, value, base, upper, sign, width, precision, left, zeropad)
  {
    hide Numeral, InField, Fill;
  }

  lemma FieldOf(num: Word, base: nat, width: int, precision: int, f: Flags)
    ensures var digits, sign := Digits(Magnitude(num, f), Radix(base), f.large), SignText(num, f);
            InField(NumberText(num, base, width, precision, f), sign,
                    if precision == 0 then "" else Fill('0', precision - |digits|) + digits,
                    Max(width - |sign| - Max(|digits|, precision), 0), f.left, f.zeropad)
  {
    hide Digits, Fill, SignText, Magnitude;
  }

  // ------------------------------------------------------------------ directives

  predicate IsFlag(c: char) {
    c == '-' || c == '+' || c == ' ' || c == '#' || c == '0'
  }

  predicate AllFlags(s: string) {
    forall c | c in s :: IsFlag(c)
  }

  predicate AllDigits(s: string) {
    forall c | c in s :: '0' <= c <= '9'
  }

  /** Characters i to j of the format are its longest run of digits from i on, and read n. */
  predicate NumberAt(fmt: string, i: nat, j: nat, n: int) {
    i < j <= |fmt| && AllDigits(fmt[i..j]) && !IsDigit(At(fmt, j)) && n == ReadBack(fmt[i..j], 10)
  }

  predicate FlagsAt(fmt: string, i: nat, a: nat, f: Flags) {
    && i <= a <= |fmt| && AllFlags(fmt[i..a]) && !IsFlag(At(fmt, a))
    && f == Flags('-' in fmt[i..a], '+' in fmt[i..a], ' ' in fmt[i..a], '#' in fmt[i..a], '0' in fmt[i..a], false, false)
  }

  /** The value of an `int` argument. */
  function IntAt(args: seq<Arg>, k: nat): int {
    var w := if k < |args| then args[k].word else 0;
    if w >= 0x8000_0000 then w - 0x1_0000_0000 else w
  }

  /** Between a and b stands a number, a `*`, which takes an argument, or nothing. */
  predicate WidthAt(fmt: string, a: nat, b: nat, args: seq<Arg>, k: nat, f: Flags, p: Parsed) {
    if IsDigit(At(fmt, a)) then NumberAt(fmt, a, b, p.width) && p.flags == f && p.k == k
    else if At(fmt, a) == '*' then
      && b == a + 1 && p.k == k + 1
      && p.width == (if IntAt(args, k) < 0 then -IntAt(args, k) else IntAt(args, k))
      && p.flags == f.(left := f.left || IntAt(args, k) < 0)
    else b == a && p.width == -1 && p.flags == f && p.k == k
  }

  /** Likewise, behind a dot, between b and c; k is the number of the next argument. */
  predicate PrecisionAt(fmt: string, b: nat, c: nat, args: seq<Arg>, k: nat, p: Parsed) {
    if At(fmt, b) != '.' then c == b && p.precision == -1 && p.k == k
    else if IsDigit(At(fmt, b + 1)) then NumberAt(fmt, b + 1, c, p.precision) && p.k == k
    else if At(fmt, b + 1) == '*' then c == b + 2 && p.k == k + 1 && p.precision == (if IntAt(args, k) < 0 then 0 else IntAt(args, k))
    else c == b + 1 && p.precision == 0 && p.k == k
  }

  predicate QualifierAt(fmt: string, c: nat, p: Parsed) {
    if At(fmt, c) == 'h' || At(fmt, c) == 'l' then p.i == c + 1 && p.qualifier == At(fmt, c)
    else p.i == c && p.qualifier == '\0'
  }

  /** p is what the directive says whose '%' stands in front of i: flags up to a, a width up to b,
      a precision up to c, and a qualifier. */
  ghost predicate Says(fmt: string, i: nat, args: seq<Arg>, k: nat, p: Parsed) {
    exists a: nat, b: nat, c: nat, f: Flags, q: Parsed ::
      FlagsAt(fmt, i, a, f) && WidthAt(fmt, a, b, args, k, f, q) && PrecisionAt(fmt, b, c, args, q.k, p)
      && p.width == q.width && p.flags == q.flags && QualifierAt(fmt, c, p)
  }

  lemma {:induction false} FlagsRead(fmt: string, i: nat, from: nat, f: Flags)
    requires i <= from <= |fmt| && AllFlags(fmt[i..from])
    requires f == Flags('-' in fmt[i..from], '+' in fmt[i..from], ' ' in fmt[i..from], '#' in fmt[i..from], '0' in fmt[i..from], false, false)
    ensures var r := ScanFlags(fmt, from, f); FlagsAt(fmt, i, r.1, r.0)
    decreases |fmt| - from
  {
    if IsFlag(At(fmt, from)) {
      var c := fmt[from];
      assert fmt[i..from + 1] == fmt[i..from] + [c];
      var g := Flags(f.left || c == '-', f.plus || c == '+', f.space || c == ' ', f.special || c == '#', f.zeropad || c == '0', false, false);
      FlagsRead(fmt, i, from + 1, g);
    }
  }

  lemma {:induction false} NumberRead(fmt: string, i: nat, from: nat, acc: nat)
    requires i <= from <= |fmt| && AllDigits(fmt[i..from]) && acc == ReadBack(fmt[i..from], 10)
    requires i < from || IsDigit(At(fmt, i))
    ensures var r := SkipAtoi(fmt, from, acc); NumberAt(fmt, i, r.1, r.0)
    decreases |fmt| - from
  {
    hide ReadBack;
    if IsDigit(At(fmt, from)) {
      assert fmt[i..from + 1] == fmt[i..from] + [fmt[from]];
      ReadLast(fmt[i..from], fmt[from], 10);
      NumberRead(fmt, i, from + 1, acc * 10 + (fmt[from] - '0') as nat);
    }
  }

  lemma WidthRead(fmt: string, a: nat, args: seq<Arg>, k: nat, f: Flags)
    requires a <= |fmt|
    ensures var q := ScanWidth(fmt, Parsed(f, -1, -1, '\0', a, k), args); WidthAt(fmt, a, q.i, args, k, f, q)
  {
    hide SkipAtoi, NumberAt;
    if IsDigit(At(fmt, a)) {
      ReadNothing(10);
      assert fmt[a..a] == [];
      NumberRead(fmt, a, a, 0);
    }
  }

  lemma PrecisionRead(fmt: string, p: Parsed, args: seq<Arg>)
    requires p.i <= |fmt|
    ensures var r := ScanPrecision(fmt, p, args);
            PrecisionAt(fmt, p.i, r.i, args, p.k, r) && r.width == p.width && r.flags == p.flags
  {
    hide SkipAtoi, NumberAt;
    if At(fmt, p.i) == '.' && IsDigit(At(fmt, p.i + 1)) {
      ReadNothing(10);
      assert fmt[p.i + 1..p.i + 1] == [];
      NumberRead(fmt, p.i + 1, p.i + 1, 0);
    }
  }

  /** Every directive of every format string is read as what it says. */
  lemma ParseSays(fmt: string, i: nat, args: seq<Arg>, k: nat)
    requires i <= |fmt|
    ensures Says(fmt, i, args, k, Parse(fmt, i, args, k))
  {
    assert fmt[i..i] == [];
    FlagsRead(fmt, i, i, NO_FLAGS);
    var (f, a) := ScanFlags(fmt, i, NO_FLAGS);
    hide ScanFlags, FlagsAt;
    WidthRead(fmt, a, args, k, f);
    var q := ScanWidth(fmt, Parsed(f, -1, -1, '\0', a, k), args);
    hide ScanWidth, WidthAt;
    PrecisionRead(fmt, q, args);
    var r := ScanPrecision(fmt, q, args);
    hide ScanPrecision, PrecisionAt;
    var p := ScanQualifier(fmt, r);
    SamePrecision(fmt, q.i, r.i, args, q.k, r, p);
    assert QualifierAt(fmt, r.i, p);
  }

  lemma SamePrecision(fmt: string, b: nat, c: nat, args: seq<Arg>, k: nat, p: Parsed, p': Parsed)
    requires PrecisionAt(fmt, b, c, args, k, p) && p'.precision == p.precision && p'.k == p.k
    ensures PrecisionAt(fmt, b, c, args, k, p')
  {
  }

  lemma InsideRun(fmt: string, i: nat, j: nat, j': nat)
    ensures i <= j < j' <= |fmt| ==> fmt[j] in fmt[i..j']
  {
    assert i <= j < j' <= |fmt| ==> fmt[i..j'][j - i] == fmt[j];
  }

  lemma SameRun(fmt: string, i: nat, j: nat, j': nat, n: int, n': int)
    requires NumberAt(fmt, i, j, n) && NumberAt(fmt, i, j', n')
    ensures j == j' && n == n'
  {
    InsideRun(fmt, i, j, j');
    InsideRun(fmt, i, j', j);
    hide ReadBack;
  }

  lemma SameFlags(fmt: string, i: nat, a: nat, a': nat, f: Flags, f': Flags)
    requires FlagsAt(fmt, i, a, f) && FlagsAt(fmt, i, a', f')
    ensures a == a' && f == f'
  {
    InsideRun(fmt, i, a, a');
    InsideRun(fmt, i, a', a);
  }

  lemma SameWidth(fmt: string, a: nat, b: nat, b': nat, args: seq<Arg>, k: nat, f: Flags, q: Parsed, q': Parsed)
    requires WidthAt(fmt, a, b, args, k, f, q) && WidthAt(fmt, a, b', args, k, f, q')
    ensures b == b' && q.width == q'.width && q.flags == q'.flags && q.k == q'.k
  {
    hide NumberAt;
    if IsDigit(At(fmt, a)) { SameRun(fmt, a, b, b', q.width, q'.width); }
  }

  lemma SamePrecisions(fmt: string, b: nat, c: nat, c': nat, args: seq<Arg>, k: nat, p: Parsed, p': Parsed)
    requires PrecisionAt(fmt, b, c, args, k, p) && PrecisionAt(fmt, b, c', args, k, p')
    ensures c == c' && p.precision == p'.precision && p.k == p'.k
  {
    hide NumberAt;
    if At(fmt, b) == '.' && IsDigit(At(fmt, b + 1)) { SameRun(fmt, b + 1, c, c', p.precision, p'.precision); }
  }

  /** A directive says one thing only. */
  lemma SaysOnce(fmt: string, i: nat, args: seq<Arg>, k: nat, p: Parsed, p': Parsed)
    requires Says(fmt, i, args, k, p) && Says(fmt, i, args, k, p')
    ensures p == p'
  {
    hide FlagsAt, WidthAt, PrecisionAt;
    var a: nat, b: nat, c: nat, f: Flags, q: Parsed :|
      FlagsAt(fmt, i, a, f) && WidthAt(fmt, a, b, args, k, f, q) && PrecisionAt(fmt, b, c, args, q.k, p)
      && p.width == q.width && p.flags == q.flags && QualifierAt(fmt, c, p);
    var a': nat, b': nat, c': nat, f': Flags, q': Parsed :|
      FlagsAt(fmt, i, a', f') && WidthAt(fmt, a', b', args, k, f', q') && PrecisionAt(fmt, b', c', args, q'.k, p')
      && p'.width == q'.width && p'.flags == q'.flags && QualifierAt(fmt, c', p');
    SameFlags(fmt, i, a, a', f, f');
    SameWidth(fmt, a, b, b', args, k, f, q, q');
    SamePrecisions(fmt, b, c, c', args, q.k, p, p');
  }

  // ------------------------------------------------------------------ conversions

  /** What an integer conversion takes from its argument: 'h' cuts it to 16 bits. */
  function ArgumentAs(w: Word, half: bool, signed: bool): int {
    if !half then ValueAs(w, signed)
    else if signed && w % 0x1_0000 >= 0x8000 then w % 0x1_0000 - 0x1_0000
    else w % 0x1_0000
  }

  /** `text` is s in a field of `width` characters. */
  predicate Padded(text: string, s: string, width: int, left: bool) {
    text == if left then s + Fill(' ', width - |s|) else Fill(' ', width - |s|) + s
  }

  /** What a conversion character prints of its argument. */
  ghost predicate Prints(text: string, c: char, arg: Arg, p: Parsed) {
    match c
    case 'd' => PrintsSigned(text, arg.word, p)
    case 'i' => PrintsSigned(text, arg.word, p)
    case 'u' => PrintsUnsigned(text, arg.word, 10, false, p)
    case 'x' => PrintsUnsigned(text, arg.word, 16, false, p)
    case 'o' => PrintsUnsigned(text, arg.word, 16, false, p)
    case 'X' => PrintsUnsigned(text, arg.word, 16, true, p)
    case 'p' => PrintsPointer(text, arg.word, p)
    case 'c' => Padded(text, [(arg.word % 256) as char], p.width, p.flags.left)
    case 's' =>
      var s := if arg.text.Null? then "(NULL)" else arg.text.s;
      Padded(text, if 0 < p.precision < |s| then s[..p.precision] else s, p.width, p.flags.left)
    case '%' => text == "%"
    case _ => text == ['%', c]
  }

  ghost predicate PrintsSigned(text: string, w: Word, p: Parsed) {
    var value := ArgumentAs(w, p.qualifier == 'h', true);
    var sign := if value < 0 then "-" else if p.flags.plus then "+" else if p.flags.space then " " else "";
    PrintsNumber(text, value, 10, false, sign, p.width, p.precision, p.flags.left, p.flags.zeropad)
  }

  ghost predicate PrintsUnsigned(text: string, w: Word, base: nat, upper: bool, p: Parsed) {
    PrintsNumber(text, ArgumentAs(w, p.qualifier == 'h', false), base, upper, "", p.width, p.precision, p.flags.left, p.flags.zeropad)
  }

  /** Without a width, eight digits. */
  ghost predicate PrintsPointer(text: string, w: Word, p: Parsed) {
    PrintsNumber(text, w, 16, false, "", if p.width == -1 then 8 else p.width, p.precision, p.flags.left, p.width == -1 || p.flags.zeropad)
  }

  predicate TakesArgument(c: char) {
    c == 'd' || c == 'i' || c == 'u' || c == 'x' || c == 'X' || c == 'o' || c == 'p' || c == 'c' || c == 's'
  }

  lemma ArgumentsAgree(w: Word, qualifier: char, signed: bool)
    ensures ValueAs(ValueOf(w, qualifier, signed), signed) == ArgumentAs(w, qualifier == 'h', signed)
  {
  }

  lemma IntegerPrints(c: char, arg: Arg, p: Parsed)
    requires Integral(c) && !p.flags.sign && !p.flags.large
    ensures Prints(IntegerText(c, arg.word, p), c, arg, p)
  {
    var f := FlagsFor(c, p.flags);
    ArgumentsAgree(arg.word, p.qualifier, f.sign);
    NumberPrints(ValueOf(arg.word, p.qualifier, f.sign), BaseOf(c), p.width, p.precision, f);
    hide PrintsNumber, NumberText, ArgumentAs, ValueOf, ValueAs;
  }

  lemma UnsignedPrints(num: Word, base: nat, width: int, precision: int, f: Flags)
    requires !f.sign
    ensures PrintsNumber(NumberText(num, base, width, precision, f), num, if base == 10 then 10 else 16, f.large, "",
                         width, precision, f.left, f.zeropad)
  {
    NumberPrints(num, base, width, precision, f);
    hide PrintsNumber, NumberText;
  }

  lemma PointerPrints(arg: Arg, p: Parsed)
    requires !p.flags.sign && !p.flags.large
    ensures PrintsPointer(PointerText(arg.word, p), arg.word, p)
  {
    if p.width == -1 {
      UnsignedPrints(arg.word, 16, 8, p.precision, p.flags.(zeropad := true));
    } else {
      UnsignedPrints(arg.word, 16, p.width, p.precision, p.flags);
    }
    hide PrintsNumber, NumberText;
  }

  lemma StringPrints(arg: Arg, p: Parsed)
    ensures Prints(StringText(arg.text, p), 's', arg, p)
  {
    hide Fill;
    var s := if arg.text.Null? then "(NULL)" else arg.text.s;
    assert s[..|s|] == s;
  }

  function ArgumentAt(args: seq<Arg>, k: nat): Arg {
    if k < |args| then args[k] else Arg(0, Null)
  }

  lemma IntegerConverts(fmt: string, p: Parsed, args: seq<Arg>)
    requires p.i < |fmt| && Integral(fmt[p.i])
    ensures Convert(fmt, p, args) == Converted(IntegerText(fmt[p.i], ArgumentAt(args, p.k).word, p), p.i + 1, p.k + 1)
    ensures TakesArgument(fmt[p.i])
  {
    hide PointerText, StringText, CharText, IntegerText;
  }

  lemma OtherConverts(fmt: string, p: Parsed, args: seq<Arg>)
    requires p.i < |fmt| && !p.flags.sign && !p.flags.large && !Integral(fmt[p.i])
    ensures var c, r := fmt[p.i], Convert(fmt, p, args);
            Prints(r.text, c, ArgumentAt(args, p.k), p) && r.i == p.i + 1 && r.k == if TakesArgument(c) then p.k + 1 else p.k
  {
    hide PrintsSigned, PrintsUnsigned, PrintsPointer, PointerText, StringText, IntegerText, Fill;
    var c, arg := fmt[p.i], ArgumentAt(args, p.k);
    assert arg == ArgAt(args, p.k);
    if c == 'c' {
      assert Convert(fmt, p, args) == Converted(CharText(arg.word, p), p.i + 1, p.k + 1);
    } else if c == 's' {
      assert Convert(fmt, p, args) == Converted(StringText(arg.text, p), p.i + 1, p.k + 1);
      StringPrints(arg, p);
    } else if c == 'p' {
      assert Convert(fmt, p, args) == Converted(PointerText(arg.word, p), p.i + 1, p.k + 1);
      PointerPrints(arg, p);
    }
  }

  /** Every conversion prints what its character stands for, moves on behind it, and takes one
      argument or none. */
  lemma ConversionPrints(fmt: string, p: Parsed, args: seq<Arg>)
    requires p.i < |fmt| && !p.flags.sign && !p.flags.large
    ensures var c, r := fmt[p.i], Convert(fmt, p, args);
            Prints(r.text, c, ArgumentAt(args, p.k), p) && r.i == p.i + 1 && r.k == if TakesArgument(c) then p.k + 1 else p.k
  {
    if Integral(fmt[p.i]) {
      IntegerConverts(fmt, p, args);
      IntegerPrints(fmt[p.i], ArgumentAt(args, p.k), p);
    } else {
      OtherConverts(fmt, p, args);
    }
    hide Prints, Convert, IntegerText, Integral, TakesArgument;
  }

  /** At p the directive ends: `text` is what it prints, and the output goes on behind it. */
  ghost predicate GoesOn(fmt: string, i: nat, args: seq<Arg>, k: nat, p: Parsed)
    requires i <= |fmt|
  {
    if p.i >= |fmt| then Format(fmt, i, args, k) == "%"
    else exists text: string | Prints(text, fmt[p.i], ArgumentAt(args, p.k), p) ::
           Format(fmt, i, args, k) == text + Format(fmt, p.i + 1, args, if TakesArgument(fmt[p.i]) then p.k + 1 else p.k)
  }

  /** The output of every format string: text is copied, and each directive prints what it says of
      its argument.  A '%' that the end of the string cuts off is printed. */
  lemma FormatPrints(fmt: string, i: nat, args: seq<Arg>, k: nat)
    requires i <= |fmt|
    ensures i == |fmt| ==> Format(fmt, i, args, k) == ""
    ensures i < |fmt| && fmt[i] != '%' ==> Format(fmt, i, args, k) == [fmt[i]] + Format(fmt, i + 1, args, k)
    ensures i < |fmt| && fmt[i] == '%' ==> exists p :: Says(fmt, i + 1, args, k, p) && GoesOn(fmt, i, args, k, p)
  {
    if i < |fmt| && fmt[i] == '%' {
      ParseSays(fmt, i + 1, args, k);
      DirectivePrints(fmt, i, args, k);
      hide Says, GoesOn, Parse;
      assert Says(fmt, i + 1, args, k, Parse(fmt, i + 1, args, k));
    }
  }

  lemma DirectivePrints(fmt: string, i: nat, args: seq<Arg>, k: nat)
    requires i < |fmt| && fmt[i] == '%'
    ensures GoesOn(fmt, i, args, k, Parse(fmt, i + 1, args, k))
  {
    var p := Parse(fmt, i + 1, args, k);
    ParseSays(fmt, i + 1, args, k);
    SaysPlain(fmt, i + 1, args, k, p);
    FormatStep(fmt, i, args, k);
    if p.i < |fmt| {
      ConversionPrints(fmt, p, args);
      hide Parse, Convert, Prints, Says, TakesArgument, Format, GoesOn;
      WentOn(fmt, i, args, k, p, Convert(fmt, p, args).text);
    } else {
      AtEnd(fmt, p, args);
      hide Parse, Convert, Says;
    }
  }

  lemma WentOn(fmt: string, i: nat, args: seq<Arg>, k: nat, p: Parsed, text: string)
    requires i < |fmt| && p.i < |fmt| && Prints(text, fmt[p.i], ArgumentAt(args, p.k), p)
    requires Format(fmt, i, args, k) == text + Format(fmt, p.i + 1, args, if TakesArgument(fmt[p.i]) then p.k + 1 else p.k)
    ensures GoesOn(fmt, i, args, k, p)
  {
    hide Prints, TakesArgument, Format;
  }

  lemma FormatStep(fmt: string, i: nat, args: seq<Arg>, k: nat)
    requires i < |fmt| && fmt[i] == '%'
    ensures var r := Convert(fmt, Parse(fmt, i + 1, args, k), args); Format(fmt, i, args, k) == r.text + Format(fmt, r.i, args, r.k)
  {
    hide Convert, Parse;
  }

  lemma AtEnd(fmt: string, p: Parsed, args: seq<Arg>)
    requires p.i == |fmt|
    ensures Convert(fmt, p, args) == Converted("%", p.i, p.k)
  {
  }

  lemma SaysPlain(fmt: string, i: nat, args: seq<Arg>, k: nat, p: Parsed)
    requires Says(fmt, i, args, k, p)
    ensures !p.flags.sign && !p.flags.large
  {
    hide NumberAt, PrecisionAt, QualifierAt, AllFlags;
  }

  /** "%x", "%X" and "%u" print every 32-bit number as its numeral. */
  lemma UnsignedNumerals(w: Word, t: Text)
    ensures Numeral(Format("%x", 0, [Arg(w, t)], 0), w, 16, false)
    ensures Numeral(Format("%X", 0, [Arg(w, t)], 0), w, 16, true)
    ensures Numeral(Format("%u", 0, [Arg(w, t)], 0), w, 10, false)
  {
    hide Numeral;
    PlainUnsigned('x', w, t);
    PlainUnsigned('X', w, t);
    PlainUnsigned('u', w, t);
    assert ['%', 'x'] == "%x" && ['%', 'X'] == "%X" && ['%', 'u'] == "%u";
  }

  lemma PlainUnsigned(c: char, w: Word, t: Text)
    requires c == 'x' || c == 'X' || c == 'u'
    ensures Numeral(Format(['%', c], 0, [Arg(w, t)], 0), w, if c == 'u' then 10 else 16, c == 'X')
  {
    var fmt, args := ['%', c], [Arg(w, t)];
    var p := Parsed(NO_FLAGS, -1, -1, '\0', 1, 0);
    var base, upper := if c == 'u' then 10 else 16, c == 'X';
    PlainParse(fmt, args);
    FormatStep(fmt, 0, args, 0);
    IntegerConverts(fmt, p, args) by { PlainIntegral(c); }
    PlainText(c, w, p);
    DigitsAreNumeral(w, base, upper);
    assert Format(fmt, 2, args, 1) == "";
    hide Convert, Parse, Format, Digits, Numeral, IntegerText;
    var text := Digits(w, base, upper);
    assert text + "" == text;
  }

  lemma PlainIntegral(c: char)
    requires c == 'x' || c == 'X' || c == 'u'
    ensures Integral(c)
  {
  }

  lemma PlainText(c: char, w: Word, p: Parsed)
    requires (c == 'x' || c == 'X' || c == 'u') && p.flags == NO_FLAGS && p.width == -1 && p.precision == -1 && p.qualifier == '\0'
    ensures IntegerText(c, w, p) == Digits(w, if c == 'u' then 10 else 16, c == 'X')
  {
    hide Digits;
    var digits := Digits(w, if c == 'u' then 10 else 16, c == 'X');
    assert "" + Fill('0', 0) + digits == digits;
  }

  lemma PlainParse(fmt: string, args: seq<Arg>)
    requires |fmt| == 2 && (fmt[1] == 'x' || fmt[1] == 'X' || fmt[1] == 'u')
    ensures Parse(fmt, 1, args, 0) == Parsed(NO_FLAGS, -1, -1, '\0', 1, 0)
  {
    hide SkipAtoi;
  }
}
