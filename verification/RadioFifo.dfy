/** The chunks in which the radio chip hands over what it received, and the routine that empties
    its FIFO. */
module RadioChunks {
  import opened Numbers

  const DATA: nat := 0x01
  const TIMER: nat := 0x10
  const RSSI: nat := 0x11
  const RF_FREQUENCY_OFFSET: nat := 0x13
  const ANTENNA_RSSI: nat := 0x15

  const BUFFER: nat := 64

  /** A chunk: five bits of command and at most 255 bytes.  `long` chunks carry their length in a
      byte of its own; up to six bytes it may stand in the header. */
  datatype Chunk = Chunk(cmd: nat, long: bool, body: seq<Byte>)

  predicate WellFormed(c: Chunk) {
    c.cmd < 32 && |c.body| < 256 && (!c.long ==> |c.body| < 7)
  }

  /** The data behind the flag byte has room in the driver's buffer. */
  predicate Fits(c: Chunk) {
    c.cmd == DATA ==> |c.body| <= BUFFER + 1
  }

  /** The framing allows chunks that do not. */
  lemma TooLongChunk()
    ensures var c := Chunk(0x01, true, seq(66, i => 0 as Byte)); WellFormed(c) && !Fits(c)
  {
  }


  function Header(c: Chunk): seq<Byte>
    requires WellFormed(c)
  {
    if c.long then [7 * 32 + c.cmd, |c.body|] else [|c.body| * 32 + c.cmd]
  }

  function Serial(cs: seq<Chunk>): seq<Byte>
    requires forall c | c in cs :: WellFormed(c)
  {
    if cs == [] then [] else Header(cs[0]) + cs[0].body + Serial(cs[1..])
  }

  /** What the driver knows of the last reception. */
  datatype Reception = Reception(buffer: seq<Byte>, length: nat, rssi: int, irqEnabled: bool)

  function SignedByte(b: Byte): int {
    if b >= 128 then b - 256 else b
  }

  /** The meaning of one chunk.  The first byte of a data chunk holds flags. */
  function Apply(r: Reception, c: Chunk, offset: int): Reception
    requires |r.buffer| == BUFFER && WellFormed(c) && Fits(c)
  {
    if c.cmd == DATA && c.body != [] then
      Reception(c.body[1..] + r.buffer[|c.body| - 1..], |c.body| - 1, r.rssi, false)
    else if c.cmd == RSSI && |c.body| == 1 then r.(rssi := SignedByte(c.body[0]) - offset)
    else r
  }

  function Fold(r: Reception, cs: seq<Chunk>, offset: int): (f: Reception)
    requires |r.buffer| == BUFFER && forall c | c in cs :: WellFormed(c) && Fits(c)
    ensures |f.buffer| == BUFFER
    decreases |cs|
  {
    if cs == [] then r else Fold(Apply(r, cs[0], offset), cs[1..], offset)
  }

  /** Every byte stream has at most one reading as chunks. */
  lemma {:induction false} OneReading(cs: seq<Chunk>, ds: seq<Chunk>)
    requires (forall c | c in cs :: WellFormed(c)) && (forall d | d in ds :: WellFormed(d))
    requires Serial(cs) == Serial(ds)
    ensures cs == ds
  {
    hide Header, Serial;
    if cs != [] { FirstChunk(cs); } else { NoChunks(); }
    if ds != [] { FirstChunk(ds); } else { NoChunks(); }
    if cs != [] && ds != [] {
      var c, d := cs[0], ds[0];
      SameHeader(c, d, c.body + Serial(cs[1..]), d.body + Serial(ds[1..]));
      SameBody(c.body, d.body, Serial(cs[1..]), Serial(ds[1..]));
      OneReading(cs[1..], ds[1..]);
      assert cs == [c] + cs[1..] && ds == [d] + ds[1..];
    }
  }

  lemma NoChunks()
    ensures Serial([]) == []
  {
  }

  lemma FirstChunk(cs: seq<Chunk>)
    requires cs != [] && forall c | c in cs :: WellFormed(c)
    ensures Serial(cs) == Header(cs[0]) + (cs[0].body + Serial(cs[1..])) && Serial(cs) != []
  {
    var h, b, t := Header(cs[0]), cs[0].body, Serial(cs[1..]);
    assert h != [];
    hide Header;
    assert h + b + t == h + (b + t);
  }

  lemma SameHeader(c: Chunk, d: Chunk, x: seq<Byte>, y: seq<Byte>)
    requires WellFormed(c) && WellFormed(d) && Header(c) + x == Header(d) + y
    ensures c.cmd == d.cmd && c.long == d.long && |c.body| == |d.body| && x == y
  {
    var s, t := Header(c) + x, Header(d) + y;
    assert s[0] == Header(c)[0] && t[0] == Header(d)[0];
    HeaderParts(c);
    HeaderParts(d);
    if c.long {
      assert s[1] == Header(c)[1] && t[1] == Header(d)[1];
    }
    var n := |Header(c)|;
    assert x == s[n..] && y == t[n..];
  }

  /** The header byte splits into length code and command. */
  lemma HeaderParts(c: Chunk)
    requires WellFormed(c)
    ensures Header(c)[0] / 32 == (if c.long then 7 else |c.body|) && Header(c)[0] % 32 == c.cmd
  {
  }

  lemma SameBody(a: seq<Byte>, b: seq<Byte>, x: seq<Byte>, y: seq<Byte>)
    requires |a| == |b| && a + x == b + y
    ensures a == b && x == y
  {
    assert a == (a + x)[..|a|] && b == (b + y)[..|a|];
    assert x == (a + x)[|a|..] && y == (b + y)[|a|..];
  }

  // ------------------------------------------------------------------ reading any bytes as chunks

  /** The longest chunk; what reads beyond the received bytes return is taken from behind them. */
  const LONGEST: nat := 257

  /** The chunk that reading from the front of s gives. */
  function FirstOf(s: seq<Byte>): (c: Chunk)
    requires |s| >= LONGEST
    ensures WellFormed(c)
  {
    if s[0] / 32 == 7 then Chunk(s[0] % 32, true, s[2..2 + s[1]]) else Chunk(s[0] % 32, false, s[1..1 + s[0] / 32])
  }

  function Size(c: Chunk): nat
    requires WellFormed(c)
  {
    |Header(c)| + |c.body|
  }

  lemma FirstIsFront(s: seq<Byte>)
    requires |s| >= LONGEST
    ensures var c := FirstOf(s);
            1 <= Size(c) <= LONGEST && s == Header(c) + (c.body + s[Size(c)..])
  {
  }

  function Minus(level: nat, n: nat): nat {
    if n < level then level - n else 0
  }

  /** All chunks read while received bytes are left, `level` of them in front of s. */
  function Parse(s: seq<Byte>, level: nat): (cs: seq<Chunk>)
    requires level == 0 || |s| >= level + LONGEST
    ensures forall c | c in cs :: WellFormed(c)
    decreases level
  {
    if level == 0 then []
    else
      var c := FirstOf(s);
      assert 1 <= Size(c) <= |s| by { FirstIsFront(s); }
      [c] + Parse(s[Size(c)..], Minus(level, Size(c)))
  }

  lemma ParseStep(s: seq<Byte>, level: nat)
    requires level > 0 && |s| >= level + LONGEST
    ensures 1 <= Size(FirstOf(s)) <= |s|
    ensures Parse(s, level) == [FirstOf(s)] + Parse(s[Size(FirstOf(s))..], Minus(level, Size(FirstOf(s))))
  {
    FirstIsFront(s);
  }

  /** Whole chunks are read as what they are, whatever follows them. */
  lemma {:induction false} WholeChunks(cs: seq<Chunk>, beyond: seq<Byte>)
    requires (forall c | c in cs :: WellFormed(c)) && |beyond| >= LONGEST
    ensures Parse(Serial(cs) + beyond, |Serial(cs)|) == cs
  {
    hide Header, Serial;
    if cs == [] {
      NoChunks();
    } else {
      var c, s := cs[0], Serial(cs) + beyond;
      FirstChunk(cs);
      var rest := Serial(cs[1..]) + beyond;
      assert s == Header(c) + (c.body + rest);
      FirstIsFront(s);
      var d := FirstOf(s);
      SameHeader(c, d, c.body + rest, d.body + s[Size(d)..]);
      SameBody(c.body, d.body, rest, s[Size(d)..]);
      ParseStep(s, |Serial(cs)|);
      WholeChunks(cs[1..], beyond);
      assert cs == [c] + cs[1..];
    }
  }

  /** Chunks without data leave the received bytes alone. */
  lemma {:induction false} NoDataNoChange(r: Reception, cs: seq<Chunk>, offset: int)
    requires |r.buffer| == BUFFER && forall c | c in cs :: WellFormed(c) && c.cmd != DATA
    ensures Fold(r, cs, offset).buffer == r.buffer && Fold(r, cs, offset).length == r.length
    decreases |cs|
  {
    if cs != [] { NoDataNoChange(Apply(r, cs[0], offset), cs[1..], offset); }
  }

  lemma {:induction false} FoldAppend(r: Reception, cs: seq<Chunk>, ds: seq<Chunk>, offset: int)
    requires |r.buffer| == BUFFER && (forall c | c in cs :: WellFormed(c) && Fits(c)) && (forall d | d in ds :: WellFormed(d) && Fits(d))
    ensures Fold(r, cs + ds, offset) == Fold(Fold(r, cs, offset), ds, offset)
    decreases |cs|
  {
    if cs == [] {
      assert cs + ds == ds;
    } else {
      assert (cs + ds)[1..] == cs[1..] + ds;
      FoldAppend(Apply(r, cs[0], offset), cs[1..], ds, offset);
    }
  }

  lemma FoldOneMore(r: Reception, cs: seq<Chunk>, c: Chunk, offset: int)
    requires |r.buffer| == BUFFER && (forall x | x in cs :: WellFormed(x) && Fits(x)) && WellFormed(c) && Fits(c)
    ensures Fold(r, cs + [c], offset) == Apply(Fold(r, cs, offset), c, offset)
  {
    FoldAppend(r, cs, [c], offset);
    var m := Fold(r, cs, offset);
    assert [c][1..] == [];
    assert Fold(m, [c], offset) == Fold(Apply(m, [c][0], offset), [c][1..], offset);
  }

  /** A chunk that carries a signal strength. */
  predicate TellsRssi(c: Chunk) {
    c.cmd == RSSI && |c.body| == 1
  }

  lemma {:induction false} NoRssiNoChange(r: Reception, cs: seq<Chunk>, offset: int)
    requires |r.buffer| == BUFFER && forall c | c in cs :: WellFormed(c) && Fits(c) && !TellsRssi(c)
    ensures Fold(r, cs, offset).rssi == r.rssi
    decreases |cs|
  {
    if cs != [] { NoRssiNoChange(Apply(r, cs[0], offset), cs[1..], offset); }
  }

  /** The signal strength is that of the last chunk that carries one, as a signed byte. */
  lemma LastRssiWins(r: Reception, before: seq<Chunk>, b: Byte, after: seq<Chunk>, offset: int)
    requires |r.buffer| == BUFFER && (forall c | c in before :: WellFormed(c) && Fits(c))
    requires forall c | c in after :: WellFormed(c) && Fits(c) && !TellsRssi(c)
    ensures forall long :: var c := Chunk(0x11, long, [b]);
              WellFormed(c) && Fits(c) && Fold(r, before + [c] + after, offset).rssi == (if b < 128 then b else b - 256) - offset
  {
    forall long ensures var c := Chunk(0x11, long, [b]);
              WellFormed(c) && Fits(c) && Fold(r, before + [c] + after, offset).rssi == (if b < 128 then b else b - 256) - offset {
      var c := Chunk(0x11, long, [b]);
      FoldAppend(r, before + [c], after, offset);
      FoldOneMore(r, before, c, offset);
      NoRssiNoChange(Apply(Fold(r, before, offset), c, offset), after, offset);
    }
  }

  /** The chip's interrupt is switched off exactly when a data chunk with a flag byte came. */
  lemma {:induction false} DataStopsIrq(r: Reception, cs: seq<Chunk>, offset: int)
    requires |r.buffer| == BUFFER && forall c | c in cs :: WellFormed(c) && Fits(c)
    ensures Fold(r, cs, offset).irqEnabled <==> r.irqEnabled && forall c | c in cs :: c.cmd != DATA || c.body == []
    decreases |cs|
  {
    if cs != [] {
      DataStopsIrq(Apply(r, cs[0], offset), cs[1..], offset);
      assert forall c :: c in cs <==> c == cs[0] || c in cs[1..];
    }
  }

  /** Whatever the other chunks say, the driver ends up with the bytes of the last data chunk. */
  lemma LastDataWins(r: Reception, before: seq<Chunk>, c: Chunk, after: seq<Chunk>, offset: int)
    requires |r.buffer| == BUFFER && c.cmd == 0x01 && 0 < |c.body| <= 65 && WellFormed(c)
    requires (forall b | b in before :: WellFormed(b) && Fits(b)) && (forall a | a in after :: WellFormed(a) && a.cmd != 0x01)
    ensures Fits(c)
    ensures var f := Fold(r, before + [c] + after, offset);
            f.length == |c.body| - 1 && f.buffer[..f.length] == c.body[1..]
  {
    FoldAppend(r, before + [c], after, offset);
    FoldOneMore(r, before, c, offset);
    var m := Fold(r, before, offset);
    NoDataNoChange(Apply(m, c, offset), after, offset);
    assert (c.body[1..] + m.buffer[|c.body| - 1..])[..|c.body| - 1] == c.body[1..];
  }
}

/** The driver's end of the FIFO. */
module RadioDriver {
  import opened Numbers
  import opened RadioChunks
  import F = RadioFrames

  /** What ReceiveData starts from. */
  function Nothing(irqEnabled: bool): (r: Reception)
    ensures |r.buffer| == BUFFER
  {
    Reception(seq(BUFFER, i => 0 as Byte), 0, 0, irqEnabled)
  }

  class Driver {
    /** What the next reads return: `level` received bytes, then whatever the empty chip gives. */
    var fifo: seq<Byte>
    var level: nat
    const buffer: array<Byte>
    var rxLen: nat
    var rssi: int
    var irqEnabled: bool
    const rssiOffset: int

    constructor (rssiOffset: int)
      ensures State() == Nothing(true) && level == 0 && buffer.Length == BUFFER && fresh(buffer)
      ensures this.rssiOffset == rssiOffset
    {
      fifo, level, rxLen, rssi, irqEnabled := [], 0, 0, 0, true;
      buffer := new Byte[BUFFER](_ => 0);
      this.rssiOffset := rssiOffset;
    }

    function State(): Reception
      reads this, buffer
    {
      Reception(buffer[..], rxLen, rssi, irqEnabled)
    }

    method Read() returns (b: Byte)
      requires fifo != []
      modifies this`fifo, this`level
      ensures b == old(fifo)[0] && fifo == old(fifo)[1..] && level == Minus(old(level), 1)
    {
      b := fifo[0];
      fifo := fifo[1..];
      if level > 0 {
        level := level - 1;
      }
    }

    /** SpiReadData into the front of the buffer. */
    method ReadData(n: nat)
      requires n <= |fifo| && n <= buffer.Length
      modifies this`fifo, this`level, buffer
      ensures fifo == old(fifo)[n..] && level == Minus(old(level), n)
      ensures buffer[..] == old(fifo)[..n] + old(buffer[..])[n..]
    {
      var i := 0;
      while i < n
        invariant 0 <= i <= n
        invariant fifo == old(fifo)[i..] && level == Minus(old(level), i)
        invariant forall k | 0 <= k < i :: buffer[k] == old(fifo)[k]
        invariant forall k | i <= k < buffer.Length :: buffer[k] == old(buffer[k])
      {
        buffer[i] := Read();
        i := i + 1;
      }
    }

    /** The drop loop; entered with at least one byte to drop. */
    method Drop(n: nat)
      requires 0 < n <= |fifo|
      modifies this`fifo, this`level
      ensures fifo == old(fifo)[n..] && level == Minus(old(level), n)
    {
      var left := n;
      ghost var done := 0;
      while left > 0
        invariant left + done == n && fifo == old(fifo)[done..] && level == Minus(old(level), done)
      {
        var _ := Read();
        left := left - 1;
        done := done + 1;
      }
    }

    /** One turn of the loop of ReceiveData.  A data chunk too long for the buffer would be stored
        past its end; the model reports that and stops there. */
    method ReceiveChunk(ghost c: Chunk, ghost tail: seq<Byte>) returns (overrun: bool)
      requires buffer.Length == BUFFER && WellFormed(c) && fifo == Header(c) + (c.body + tail)
      modifies this, buffer
      ensures overrun <==> !Fits(c)
      ensures !overrun ==> fifo == tail && State() == Apply(old(State()), c, rssiOffset)
      ensures !overrun ==> level == Minus(old(level), Size(c))
    {
      var command, length := ReadHeader(c, c.body + tail);
      overrun := ReadBody(command, length, c, tail);
    }

    method ReadHeader(ghost c: Chunk, ghost rest: seq<Byte>) returns (command: nat, length: nat)
      requires WellFormed(c) && fifo == Header(c) + rest
      modifies this`fifo, this`level
      ensures command == c.cmd && length == |c.body| && fifo == rest && level == Minus(old(level), |Header(c)|)
    {
      ghost var all := fifo;
      HeaderParts(c);
      assert all[0] == Header(c)[0] && (c.long ==> all[1] == |c.body|);
      assert all[|Header(c)|..] == rest;
      var first := Read();
      length := first / 32;
      if length == 7 {
        length := Read();
      }
      command := first % 32;
    }

    /** The switch over the commands. */
    method ReadBody(command: nat, length: nat, ghost c: Chunk, ghost tail: seq<Byte>) returns (overrun: bool)
      requires buffer.Length == BUFFER && WellFormed(c) && fifo == c.body + tail
      requires command == c.cmd && length == |c.body|
      modifies this, buffer
      ensures overrun <==> !Fits(c)
      ensures !overrun ==> fifo == tail && State() == Apply(old(State()), c, rssiOffset)
      ensures !overrun ==> level == Minus(old(level), |c.body|)
    {
      overrun := false;
      ghost var at := fifo;
      assert at[|c.body|..] == tail;
      if command == DATA {
        if length > 0 {
          overrun := ReadPacket(length, c, tail);
        }
      } else if command == RSSI && length == 1 {
        var r := Read();
        assert r == c.body[0];
        rssi := SignedByte(r) - rssiOffset;
      } else if (command == RF_FREQUENCY_OFFSET || command == TIMER) && length == 3 {
        var _ := Read();
        var _ := Read();
        var _ := Read();
        assert fifo == at[3..];
      } else if command == ANTENNA_RSSI {
        if length > 0 {
          var _ := Read();
          if length - 1 > 0 {
            Drop(length - 1);
          }
          assert fifo == at[|c.body|..];
        }
      } else if length > 0 {
        Drop(length);
      }
    }

    /** The bytes of a data chunk: flags, then the packet. */
    method ReadPacket(length: nat, ghost c: Chunk, ghost tail: seq<Byte>) returns (overrun: bool)
      requires buffer.Length == BUFFER && WellFormed(c) && fifo == c.body + tail
      requires c.cmd == DATA && length == |c.body| > 0
      modifies this, buffer
      ensures overrun <==> !Fits(c)
      ensures !overrun ==> fifo == tail && State() == Apply(old(State()), c, rssiOffset)
      ensures !overrun ==> level == Minus(old(level), |c.body|)
    {
      var _ := Read();
      ghost var at := fifo;
      assert at[..length - 1] == c.body[1..] && at[length - 1..] == tail;
      overrun := length - 1 > buffer.Length;
      if !overrun {
        ReadData(length - 1);
        rxLen := length - 1;
        irqEnabled := false;
      }
    }

    /** ReceiveData on any received bytes, the last chunk perhaps incomplete.  It stores past its
        buffer exactly when some data chunk is too long; otherwise it empties the FIFO and knows
        what the chunks say. */
    method ReceiveData() returns (overrun: bool)
      requires buffer.Length == BUFFER && |fifo| >= level + LONGEST
      modifies this, buffer
      ensures overrun <==> exists c :: c in Parse(old(fifo), old(level)) && !Fits(c)
      ensures !overrun ==> level == 0 && State() == Fold(Nothing(old(irqEnabled)), Parse(old(fifo), old(level)), rssiOffset)
    {
      hide Header, Apply, Fits, Parse, FirstOf, Size;
      rssi := 0;
      rxLen := 0;
      forall i | 0 <= i < buffer.Length {
        buffer[i] := 0;
      }
      assert State() == Nothing(old(irqEnabled));
      ghost var all, start, done := Parse(fifo, level), State(), [];
      while level > 0
        invariant level == 0 || |fifo| >= level + LONGEST
        invariant all == done + Parse(fifo, level)
        invariant forall c | c in done :: WellFormed(c) && Fits(c)
        invariant State() == Fold(start, done, rssiOffset)
        decreases level
      {
        ghost var c := FirstOf(fifo);
        FirstIsFront(fifo);
        ParseStep(fifo, level);
        ghost var rest := Parse(fifo[Size(c)..], Minus(level, Size(c)));
        assert all == done + ([c] + rest) == (done + [c]) + rest;
        assert c in all;
        overrun := ReceiveChunk(c, fifo[Size(c)..]);
        if overrun {
          return;
        }
        FoldOneMore(start, done, c, rssiOffset);
        done := done + [c];
      }
      ParseNothing(fifo);
      assert all == done;
      overrun := false;
    }
  }

  lemma ParseNothing(s: seq<Byte>)
    ensures Parse(s, 0) == []
  {
  }

  /** From the air to the fields: when the chunks of one reception carry a built frame behind a
      flag byte, the buffer the driver hands to the decoder makes it store that message. */
  lemma ReceivedFrameIsDecoded(m: F.Message, flagByte: Byte, before: seq<Chunk>, after: seq<Chunk>, irq: bool, offset: int, s: F.Receiver)
    requires F.WellFormed(m) && !m.Value?
    requires (forall b | b in before :: WellFormed(b) && Fits(b)) && (forall a | a in after :: WellFormed(a) && a.cmd != DATA)
    ensures var c := Chunk(DATA, true, [flagByte] + F.Encode(m));
            var r := Fold(Nothing(irq), before + [c] + after, offset);
            r.length == 16 && F.Step(s, r.buffer[..r.length], true) == F.Store(s, m)
  {
    hide F.Encode, F.WellFormed, Fold;
    var c := Chunk(DATA, true, [flagByte] + F.Encode(m));
    EncodedLength(m);
    LastDataWins(Nothing(irq), before, c, after, offset);
    assert c.body[1..] == F.Encode(m);
    F.RoundTrip(m);
  }

  lemma EncodedLength(m: F.Message)
    requires F.WellFormed(m)
    ensures |F.Encode(m)| == 16
  {
  }
}
