/** rt_vsnprintf and print_number: the text of FormatText written into a buffer of any size.
    `str` runs on past the end of the buffer; only places before `end` are stored to. */
module FormatBuffer {
  import opened Numbers
  import opened FormatText

  /** The buffer held `orig`, and then `text` was put into its first `end` places as far as it fits. */
  ghost predicate Holds(b: seq<char>, end: nat, orig: seq<char>, text: string) {
    && |b| == |orig|
    && forall j | 0 <= j < |b| :: b[j] == if j < |text| && j < end then text[j] else orig[j]
  }

  method Put(buf: array<char>, end: nat, str: nat, c: char, ghost orig: seq<char>, ghost text: string) returns (str': nat)
    requires end <= buf.Length && str == |text| && Holds(buf[..], end, orig, text)
    modifies buf
    ensures str' == |text| + 1 && Holds(buf[..], end, orig, text + [c])
  {
    if str < end {
      buf[str] := c;
    }
    return str + 1;
  }

  /** A padding loop: `while (n-- > 0)`. */
  method Pad(buf: array<char>, end: nat, str: nat, c: char, n: int, ghost orig: seq<char>, ghost text: string) returns (str': nat)
    requires end <= buf.Length && str == |text| && Holds(buf[..], end, orig, text)
    modifies buf
    ensures str' == |text| + Max(n, 0) && Holds(buf[..], end, orig, text + Fill(c, n))
  {
    str' := str;
    var left := n;
    assert text + [] == text;
    while left > 0
      invariant if n >= 0 then 0 <= left <= n else left == n
      invariant str' == |text| + |Fill(c, n - left)|
      invariant Holds(buf[..], end, orig, text + Fill(c, n - left))
    {
      FillGrows(c, n - left);
      assert text + Fill(c, n - left + 1) == text + Fill(c, n - left) + [c];
      str' := Put(buf, end, str', c, orig, text + Fill(c, n - left));
      left := left - 1;
    }
    FillNothing(c, n);
    FillNothing(c, n - left);
  }

  lemma {:induction false} FillGrows(c: char, n: nat)
    ensures Fill(c, n + 1) == Fill(c, n) + [c]
  {
    if n > 0 { FillGrows(c, n - 1); }
  }

  method PutAll(buf: array<char>, end: nat, str: nat, s: string, ghost orig: seq<char>, ghost text: string) returns (str': nat)
    requires end <= buf.Length && str == |text| && Holds(buf[..], end, orig, text)
    modifies buf
    ensures str' == |text| + |s| && Holds(buf[..], end, orig, text + s)
  {
    str' := str;
    var i := 0;
    assert text + s[..0] == text;
    while i < |s|
      invariant 0 <= i <= |s| && str' == |text| + i
      invariant Holds(buf[..], end, orig, text + s[..i])
    {
      assert text + s[..i + 1] == text + s[..i] + [s[i]];
      str' := Put(buf, end, str', s[i], orig, text + s[..i]);
      i := i + 1;
    }
    assert s[..i] == s;
  }

  function Reverse(s: string): (r: string)
    ensures |r| == |s| && forall i | 0 <= i < |s| :: r[i] == s[|s| - 1 - i]
  {
    if s == [] then [] else Reverse(s[1..]) + [s[0]]
  }

  /** The first n characters of tmp, last one first. */
  lemma ReverseGrows(s: string, c: char)
    ensures Reverse(s + [c]) == [c] + Reverse(s)
  {
  }

  /** 32-bit numbers have at most ten digits, so they fit the sixteen places of tmp. */
  lemma DigitsFit(u: Word, radix: nat, large: bool)
    requires radix == 10 || radix == 16
    ensures |Digits(u, radix, large)| <= 10
  {
    hide Digit;
    DigitsShort(u, radix, large, 10) by { TenDigits(radix); }
  }

  lemma TenDigits(radix: nat)
    requires radix == 10 || radix == 16
    ensures Pow(radix, 10) >= WORD
  {
    if radix == 10 {
      assert Pow(10, 5) == 100000;
      assert Pow(10, 10) == 10 * (10 * (10 * (10 * (10 * Pow(10, 5)))));
    } else {
      assert Pow(16, 4) == 0x10000;
      assert Pow(16, 8) == 16 * (16 * (16 * (16 * Pow(16, 4))));
      assert Pow(16, 10) == 16 * (16 * Pow(16, 8));
    }
  }

  lemma {:induction false} DigitsShort(u: nat, radix: nat, large: bool, n: nat)
    requires (radix == 10 || radix == 16) && n > 0 && u < Pow(radix, n)
    ensures |Digits(u, radix, large)| <= n
    decreases n
  {
    hide Digit, Rem;
    if u >= radix {
      assert n > 1;
      var p := Pow(radix, n - 1);
      assert Quot(u, radix) < p;
      DigitsShort(Quot(u, radix), radix, large, n - 1);
    }
  }

  /** The digit loop: the digits of u, last one first; `i` of them. */
  method StoreDigits(u: Word, base: nat, large: bool, tmp: array<char>) returns (i: nat)
    requires tmp.Length == 16
    modifies tmp
    ensures 1 <= i <= 10 && Reverse(tmp[..i]) == Digits(u, Radix(base), large)
  {
    ghost var radix := Radix(base);
    DigitsFit(u, radix, large);
    hide Digit, Digits, Quot, Rem, Reverse;
    i := 0;
    ReverseNothing();
    if u == 0 {
      tmp[0] := '0';
      i := 1;
      assert tmp[..1] == [] + ['0'];
      ReverseGrows([], '0');
      ZeroDigit(large);
    } else {
      var num: nat := u;
      assert tmp[..0] == [] && Digits(u, radix, large) + [] == Digits(u, radix, large);
      while num != 0
        invariant i <= 10
        invariant DigitsLeft(Digits(u, radix, large), num, radix, large, tmp[..i])
        decreases num
      {
        ghost var was, from := tmp[..i], num;
        var d;
        num, d := Divide(num, base);
        OneDigit(Digits(u, radix, large), from, radix, large, was);
        tmp[i] := Digit(d, large);
        i := i + 1;
        assert tmp[..i] == was + [Digit(d, large)];
      }
    }
  }

  /** The digits of num, and after them the stored ones backwards, make up `all`. */
  ghost predicate DigitsLeft(all: string, num: nat, radix: nat, large: bool, stored: string)
    requires radix == 10 || radix == 16
  {
    if num == 0 then all == Reverse(stored) && stored != []
    else all == Digits(num, radix, large) + Reverse(stored)
  }

  lemma OneDigit(all: string, num: nat, radix: nat, large: bool, stored: string)
    requires (radix == 10 || radix == 16) && num > 0 && DigitsLeft(all, num, radix, large, stored)
    ensures |stored| < |all|
    ensures DigitsLeft(all, Quot(num, radix), radix, large, stored + [Digit(Rem(num, radix), large)])
  {
    var q, d := Quot(num, radix), Digit(Rem(num, radix), large);
    LastDigit(num, radix, large);
    ReverseGrows(stored, d);
    hide Quot, Rem, Digit, Digits, Reverse;
    if q > 0 {
      assert Digits(q, radix, large) + ([d] + Reverse(stored)) == (Digits(q, radix, large) + [d]) + Reverse(stored);
    }
  }

  lemma ReverseNothing()
    ensures Reverse([]) == []
  {
  }

  lemma ZeroDigit(large: bool)
    ensures Digits(0, 10, large) == "0" == Digits(0, 16, large)
  {
  }

  lemma LastDigit(u: nat, radix: nat, large: bool)
    requires (radix == 10 || radix == 16) && u > 0
    ensures var q, d := Quot(u, radix), Rem(u, radix);
            Digits(u, radix, large) == if q == 0 then [Digit(d, large)] else Digits(q, radix, large) + [Digit(d, large)]
  {
    hide Digit;
  }

  /** The inline function `divide`. */
  method Divide(n: nat, base: nat) returns (q: nat, d: nat)
    ensures q == Quot(n, Radix(base)) && d == Rem(n, Radix(base)) && d < 16
    ensures n > 0 ==> q < n
  {
    if base == 10 {
      d := n % 10;
      q := n / 10;
    } else {
      d := n % 16;
      q := n / 16;
    }
  }

  method TakeSign(num: Word, f: Flags) returns (sign: string, u: Word)
    ensures sign == SignText(num, f) && |sign| <= 1 && u == Magnitude(num, f)
  {
    sign := [];
    u := num;
    if f.sign {
      if Signed(num) < 0 {
        sign := ['-'];
        u := WORD - num;
      } else if f.plus {
        sign := ['+'];
      } else if f.space {
        sign := [' '];
      }
    }
  }

  /** print_number.  `num` is the 32-bit pattern of its long argument. */
  method PrintNumber(buf: array<char>, end: nat, str: nat, num: Word, base: nat, s: int, precision: int, f: Flags,
                     ghost orig: seq<char>, ghost text: string) returns (str': nat)
    requires end <= buf.Length && str == |text| && Holds(buf[..], end, orig, text)
    modifies buf
    ensures str' == |text + NumberText(num, base, s, precision, f)|
    ensures Holds(buf[..], end, orig, text + NumberText(num, base, s, precision, f))
  {
    hide Holds, Digits, Reverse, Fill, NumberText, Gap, Body, Magnitude, SignText;
    var size := s;
    var zeropad := f.zeropad && !f.left;
    var sign, u := TakeSign(num, f);
    NumberParts(num, base, s, precision, f);
    var tmp := new char[16];
    var i := StoreDigits(u, base, f.large, tmp);
    ghost var digits := Digits(u, Radix(base), f.large);
    assert Reverse(tmp[..i]) == digits && i == |digits|;
    var width := if i > precision then i else precision;
    size := size - width;
    ghost var gap := Gap(num, base, s, precision, f);
    ghost var before := if !zeropad && !f.left then Fill(' ', gap) else "";
    ghost var between := if zeropad then Fill('0', gap) else "";
    str', size := PutFront(buf, end, str, size, sign, zeropad, f.left, gap, orig, text);
    ghost var t := text + before + sign + between;
    str' := PutBody(buf, end, str', tmp, i, precision, digits, orig, t);
    ghost var body := Body(num, base, precision, f);
    t := t + body;
    str' := Pad(buf, end, str', ' ', size, orig, t);
    t := t + Fill(' ', size);
    ghost var behind := if f.left then Fill(' ', gap) else "";
    Assemble(num, base, s, precision, f, before, between, behind);
    Regroup(text, before, sign, between, body, behind);
  }

  lemma Regroup(t: string, a: string, b: string, c: string, d: string, e: string)
    ensures t + a + b + c + d + e == t + (a + b + c + d + e)
  {
  }

  /** Everything in front of the digits: blanks, the sign, padding zeros.  `size` is what remains
      of the field for blanks behind the digits. */
  method PutFront(buf: array<char>, end: nat, str: nat, s: int, sign: string, zeropad: bool, left: bool, ghost gap: nat,
                  ghost orig: seq<char>, ghost text: string) returns (str': nat, size: int)
    requires end <= buf.Length && str == |text| && Holds(buf[..], end, orig, text)
    requires |sign| <= 1 && gap == Max(s - |sign|, 0) && !(zeropad && left)
    modifies buf
    ensures var t := text + (if !zeropad && !left then Fill(' ', gap) else "") + sign + (if zeropad then Fill('0', gap) else "");
            str' == |t| && Holds(buf[..], end, orig, t)
    ensures Fill(' ', size) == if left then Fill(' ', gap) else ""
  {
    hide Holds, Fill;
    var c := if zeropad then '0' else ' ';
    size := s;
    str' := str;
    ghost var t := text;
    if !zeropad && !left {
      if sign != [] && size > 0 {
        size := size - 1;
      }
      assert Fill(' ', size) == Fill(' ', gap) by { FillNothing(' ', size); FillNothing(' ', gap); }
      str' := Pad(buf, end, str', ' ', size, orig, t);
      t := t + Fill(' ', gap);
      size := -1;
    }
    ghost var before := if !zeropad && !left then Fill(' ', gap) else "";
    assert t == text + before;
    if sign != [] {
      size := size - 1;
      str' := PutAll(buf, end, str', sign, orig, t);
    }
    t := t + sign;
    if !left {
      assert Fill(c, size) == if zeropad then Fill('0', gap) else "" by { FillNothing(c, size); FillNothing(c, gap); }
      str' := Pad(buf, end, str', c, size, orig, t);
      size := -1;
    }
    ghost var between := if zeropad then Fill('0', gap) else "";
    assert text + before + sign + between == t + between;
    if left { assert t + between == t; }
    FillNothing(' ', size);
    FillNothing(' ', gap);
  }

  lemma Assemble(num: Word, base: nat, width: int, precision: int, f: Flags, before: string, between: string, behind: string)
    requires var gap := Gap(num, base, width, precision, f);
             && before == (if !(f.zeropad && !f.left) && !f.left then Fill(' ', gap) else "")
             && between == (if f.zeropad && !f.left then Fill('0', gap) else "")
             && behind == (if f.left then Fill(' ', gap) else "")
    ensures NumberText(num, base, width, precision, f) == before + SignText(num, f) + between + Body(num, base, precision, f) + behind
  {
    hide Gap, SignText, Body, Fill;
  }

  lemma NumberParts(num: Word, base: nat, width: int, precision: int, f: Flags)
    ensures var gap, digits := Gap(num, base, width, precision, f), Digits(Magnitude(num, f), Radix(base), f.large);
            && gap == Max(width - Max(|digits|, precision) - |SignText(num, f)|, 0)
            && Body(num, base, precision, f) == (if precision == 0 then "" else Fill('0', precision - |digits|) + digits)
  {
    hide Digits, Magnitude, SignText, Fill;
  }

  /** The leading zeros and the digits. */
  method PutBody(buf: array<char>, end: nat, str: nat, tmp: array<char>, i: nat, precision: int, ghost digits: string,
                 ghost orig: seq<char>, ghost text: string) returns (str': nat)
    requires end <= buf.Length && str == |text| && Holds(buf[..], end, orig, text) && i <= tmp.Length && tmp != buf
    requires Reverse(tmp[..i]) == digits && i == |digits|
    modifies buf
    ensures var body := if precision == 0 then "" else Fill('0', precision - |digits|) + digits;
            str' == |text + body| && Holds(buf[..], end, orig, text + body)
  {
    hide Holds, Reverse, Fill;
    var width := if i > precision then i else precision;
    ghost var zeros := Fill('0', width - i);
    FillNothing('0', width - i);
    FillNothing('0', precision - i);
    str' := Pad(buf, end, str, '0', width - i, orig, text);
    if precision != 0 {
      assert zeros == Fill('0', precision - i);
      str' := PutReversed(buf, end, str', tmp, i, orig, text + zeros);
      assert text + zeros + digits == text + (zeros + digits);
    } else {
      assert text + zeros == text + "";
    }
  }

  lemma FillNothing(c: char, n: int)
    ensures n <= 0 ==> Fill(c, n) == []
    ensures |Fill(c, n)| == Max(n, 0) && Fill(c, n) == Fill(c, Max(n, 0))
  {
  }

  /** The digits leave tmp in reverse order. */
  method PutReversed(buf: array<char>, end: nat, str: nat, tmp: array<char>, n: nat, ghost orig: seq<char>, ghost text: string) returns (str': nat)
    requires end <= buf.Length && str == |text| && Holds(buf[..], end, orig, text) && n <= tmp.Length && tmp != buf
    modifies buf
    ensures str' == |text| + n && Holds(buf[..], end, orig, text + Reverse(tmp[..n]))
  {
    hide Holds;
    str' := str;
    var i := n;
    ghost var r := Reverse(tmp[..n]);
    assert text + r[..0] == text;
    while i > 0
      invariant 0 <= i <= n && str' == |text| + (n - i)
      invariant Holds(buf[..], end, orig, text + r[..n - i])
    {
      i := i - 1;
      assert tmp[i] == r[n - i - 1];
      assert text + r[..n - i] == text + r[..n - i - 1] + [tmp[i]];
      str' := Put(buf, end, str', tmp[i], orig, text + r[..n - i - 1]);
    }
    assert r[..n] == r;
  }

  // ------------------------------------------------------------------ format strings

  method ReadFlags(fmt: string, i: nat) returns (f: Flags, j: nat)
    requires i <= |fmt|
    ensures (f, j) == ScanFlags(fmt, i, NO_FLAGS)
  {
    f := NO_FLAGS;
    j := i;
    while true
      invariant i <= j <= |fmt|
      invariant ScanFlags(fmt, j, f) == ScanFlags(fmt, i, NO_FLAGS)
      decreases |fmt| - j
    {
      var c := At(fmt, j);
      if c == '-' {
        f := f.(left := true);
      } else if c == '+' {
        f := f.(plus := true);
      } else if c == ' ' {
        f := f.(space := true);
      } else if c == '#' {
        f := f.(special := true);
      } else if c == '0' {
        f := f.(zeropad := true);
      } else {
        break;
      }
      j := j + 1;
    }
  }

  /** skip_atoi. */
  method ReadNumber(fmt: string, i: nat) returns (n: nat, j: nat)
    requires i <= |fmt|
    ensures (n, j) == SkipAtoi(fmt, i, 0)
  {
    n := 0;
    j := i;
    while IsDigit(At(fmt, j))
      invariant i <= j <= |fmt|
      invariant SkipAtoi(fmt, j, n) == SkipAtoi(fmt, i, 0)
      decreases |fmt| - j
    {
      n := n * 10 + (At(fmt, j) - '0') as nat;
      j := j + 1;
    }
  }

  method ReadDirective(fmt: string, i: nat, args: seq<Arg>, k: nat) returns (p: Parsed)
    requires i <= |fmt|
    ensures p == Parse(fmt, i, args, k)
  {
    hide ScanFlags, SkipAtoi;
    var f, j := ReadFlags(fmt, i);
    p := Parsed(f, -1, -1, '\0', j, k);
    ghost var p0 := p;
    if IsDigit(At(fmt, p.i)) {
      var w, at := ReadNumber(fmt, p.i);
      p := p.(width := w, i := at);
    } else if At(fmt, p.i) == '*' {
      var w := Signed(ArgAt(args, p.k).word);
      if w < 0 {
        w := -w;
        p := p.(flags := p.flags.(left := true));
      }
      p := p.(width := w, i := p.i + 1, k := p.k + 1);
    }
    ghost var p1 := p;
    assert p1 == ScanWidth(fmt, p0, args);
    if At(fmt, p.i) == '.' {
      if IsDigit(At(fmt, p.i + 1)) {
        var n, at := ReadNumber(fmt, p.i + 1);
        p := p.(precision := n, i := at);
      } else if At(fmt, p.i + 1) == '*' {
        p := p.(precision := Signed(ArgAt(args, p.k).word), i := p.i + 2, k := p.k + 1);
      } else {
        p := p.(i := p.i + 1);
      }
      if p.precision < 0 {
        p := p.(precision := 0);
      }
    }
    assert p == ScanPrecision(fmt, p1, args);
    if At(fmt, p.i) == 'h' || At(fmt, p.i) == 'l' {
      p := p.(qualifier := At(fmt, p.i), i := p.i + 1);
    }
  }

  method PutChar(buf: array<char>, end: nat, str: nat, w: Word, p: Parsed, ghost orig: seq<char>, ghost text: string) returns (str': nat)
    requires end <= buf.Length && str == |text| && Holds(buf[..], end, orig, text)
    modifies buf
    ensures str' == |text + CharText(w, p)| && Holds(buf[..], end, orig, text + CharText(w, p))
  {
    hide Holds, Fill;
    var c := (w % 256) as char;
    str' := str;
    if !p.flags.left {
      str' := Pad(buf, end, str', ' ', p.width - 1, orig, text);
      str' := Put(buf, end, str', c, orig, text + Fill(' ', p.width - 1));
      assert text + Fill(' ', p.width - 1) + [c] == text + (Fill(' ', p.width - 1) + [c]);
    } else {
      str' := Put(buf, end, str', c, orig, text);
      str' := Pad(buf, end, str', ' ', p.width - 1, orig, text + [c]);
      assert text + [c] + Fill(' ', p.width - 1) == text + ([c] + Fill(' ', p.width - 1));
    }
  }

  method PutString(buf: array<char>, end: nat, str: nat, t: Text, p: Parsed, ghost orig: seq<char>, ghost text: string) returns (str': nat)
    requires end <= buf.Length && str == |text| && Holds(buf[..], end, orig, text)
    modifies buf
    ensures str' == |text + StringText(t, p)| && Holds(buf[..], end, orig, text + StringText(t, p))
  {
    hide Holds, Fill;
    var s := if t.Null? then "(NULL)" else t.s;
    var len := |s|;
    if p.precision > 0 && len > p.precision {
      len := p.precision;
    }
    str' := str;
    if !p.flags.left {
      str' := Pad(buf, end, str', ' ', p.width - len, orig, text);
      str' := PutAll(buf, end, str', s[..len], orig, text + Fill(' ', p.width - len));
      assert text + Fill(' ', p.width - len) + s[..len] == text + (Fill(' ', p.width - len) + s[..len]);
    } else {
      str' := PutAll(buf, end, str', s[..len], orig, text);
      str' := Pad(buf, end, str', ' ', p.width - len, orig, text + s[..len]);
      assert text + s[..len] + Fill(' ', p.width - len) == text + (s[..len] + Fill(' ', p.width - len));
    }
  }

  /** One directive, from its conversion character on. */
  method PutConversion(buf: array<char>, end: nat, str: nat, fmt: string, p: Parsed, args: seq<Arg>, ghost orig: seq<char>, ghost text: string)
      returns (str': nat, i: nat, k: nat)
    requires end <= buf.Length && str == |text| && Holds(buf[..], end, orig, text) && p.i <= |fmt|
    modifies buf
    ensures var r := Convert(fmt, p, args);
            str' == |text + r.text| && Holds(buf[..], end, orig, text + r.text) && i == r.i && k == r.k
  {
    hide Holds, CharText, StringText, NumberText;
    var c := At(fmt, p.i);
    var arg := ArgAt(args, p.k);
    i := p.i + 1;
    k := p.k + 1;
    if p.i == |fmt| {
      str' := Put(buf, end, str, '%', orig, text);
      i := p.i;
      k := p.k;
    } else if c == 'c' {
      str' := PutChar(buf, end, str, arg.word, p, orig, text);
    } else if c == 's' {
      str' := PutString(buf, end, str, arg.text, p, orig, text);
    } else if c == 'p' {
      if p.width == -1 {
        str' := PrintNumber(buf, end, str, arg.word, 16, 8, p.precision, p.flags.(zeropad := true), orig, text);
      } else {
        str' := PrintNumber(buf, end, str, arg.word, 16, p.width, p.precision, p.flags, orig, text);
      }
    } else if c == '%' {
      str' := Put(buf, end, str, '%', orig, text);
      k := p.k;
    } else if Integral(c) {
      str' := PutInteger(buf, end, str, c, arg.word, p, orig, text);
    } else {
      str' := Put(buf, end, str, '%', orig, text);
      str' := Put(buf, end, str', c, orig, text + ['%']);
      assert text + ['%'] + [c] == text + ['%', c];
      k := p.k;
    }
  }

  method PutInteger(buf: array<char>, end: nat, str: nat, c: char, w: Word, p: Parsed, ghost orig: seq<char>, ghost text: string)
      returns (str': nat)
    requires end <= buf.Length && str == |text| && Holds(buf[..], end, orig, text) && Integral(c)
    modifies buf
    ensures str' == |text + IntegerText(c, w, p)| && Holds(buf[..], end, orig, text + IntegerText(c, w, p))
  {
    hide Holds, NumberText;
    var base := 10;
    var flags := p.flags;
    if c == 'o' {
      base := 8;
    } else if c == 'X' {
      flags := flags.(large := true);
      base := 16;
    } else if c == 'x' {
      base := 16;
    } else if c == 'd' || c == 'i' {
      flags := flags.(sign := true);
    }
    var num: Word := w;
    if p.qualifier == 'h' {
      num := w % 0x1_0000;
      if flags.sign && num >= 0x8000 {
        num := num + (WORD - 0x1_0000);
      }
    }
    str' := PrintNumber(buf, end, str, num, base, p.width, p.precision, flags, orig, text);
  }

  /** rt_vsnprintf.  Whatever the size, the result is the length of the whole output, and the
      buffer receives as much of it as fits in front of the terminating NUL; no other place of the
      buffer changes. */
  method VsnPrintf(buf: array<char>, size: nat, fmt: string, args: seq<Arg>) returns (n: nat)
    requires size <= buf.Length && '\0' !in fmt
    modifies buf
    ensures var out := Format(fmt, 0, args, 0);
            n == |out|
            && (size == 0 ==> buf[..] == old(buf[..]))
            && (size > 0 ==> var kept := out[..if n < size then n else size - 1];
                             buf[..] == kept + ['\0'] + old(buf[..])[|kept| + 1..])
  {
    hide Holds, Convert, Parse;
    ghost var orig, text := buf[..], "";
    ghost var all := Format(fmt, 0, args, 0);
    HoldsNothing(orig, size);
    var str := 0;
    var i, k := 0, 0;
    while i < |fmt|
      invariant 0 <= i <= |fmt|
      invariant str == |text| && Holds(buf[..], size, orig, text)
      invariant all == text + Format(fmt, i, args, k)
      decreases |fmt| - i
    {
      if fmt[i] != '%' {
        str := Put(buf, size, str, fmt[i], orig, text);
        assert all == text + [fmt[i]] + Format(fmt, i + 1, args, k);
        text := text + [fmt[i]];
        i := i + 1;
      } else {
        var p := ReadDirective(fmt, i + 1, args, k);
        ghost var r := Convert(fmt, p, args);
        assert all == text + r.text + Format(fmt, r.i, args, r.k);
        str, i, k := PutConversion(buf, size, str, fmt, p, args, orig, text);
        text := text + r.text;
      }
    }
    assert all == text;
    Terminate(buf, size, str, orig, text);
    n := str;
  }

  /** The NUL behind the text, or in the last place of the buffer. */
  method Terminate(buf: array<char>, size: nat, str: nat, ghost orig: seq<char>, ghost text: string)
    requires size <= buf.Length && str == |text| && Holds(buf[..], size, orig, text) && |orig| == buf.Length
    modifies buf
    ensures size == 0 ==> buf[..] == orig
    ensures size > 0 ==> var kept := text[..if str < size then str else size - 1]; buf[..] == kept + ['\0'] + orig[|kept| + 1..]
  {
    hide Holds;
    if size > 0 {
      ghost var filled := buf[..];
      var last := if str < size then str else size - 1;
      buf[last] := '\0';
      assert buf[..] == filled[last := '\0'];
      Terminated(filled, size, orig, text, last);
    } else {
      HoldsOutside(buf[..], orig, text);
    }
  }

  lemma HoldsNothing(orig: seq<char>, end: nat)
    ensures Holds(orig, end, orig, "")
  {
  }

  lemma HoldsOutside(b: seq<char>, orig: seq<char>, text: string)
    requires Holds(b, 0, orig, text)
    ensures b == orig
  {
  }

  lemma Terminated(b: seq<char>, size: nat, orig: seq<char>, text: string, last: nat)
    requires 0 < size <= |b| && Holds(b, size, orig, text) && last == if |text| < size then |text| else size - 1
    ensures b[last := '\0'] == text[..last] + ['\0'] + orig[last + 1..]
  {
  }
}
