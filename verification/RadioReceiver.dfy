/** The 406.8 MHz receive callback as it runs: shift loops over the data bytes, and the fields it
    keeps from frame to frame. */
module RadioReceiver {
  import opened Numbers
  import opened RadioCode
  import opened RadioFrames

  lemma SevenBits(s: seq<bool>)
    requires |s| <= 7
    ensures ValueOf(s) < 128
  {
    BitsOfValue(s);
    SmallPowers(|s|);
  }

  lemma SmallPowers(n: nat)
    requires n <= 7
    ensures Pow2(n) <= 128
  {
    assert Pow2(7) == 128;
    PowersGrow(n, 7);
  }

  lemma {:induction false} PowersGrow(m: nat, n: nat)
    requires m <= n
    ensures Pow2(m) <= Pow2(n)
  {
    if m < n { PowersGrow(m, n - 1); }
  }

  lemma Shifted(s: seq<bool>, x: bool)
    ensures ValueOf(s + [x]) == 2 * ValueOf(s) + Bit(x)
  {
    assert (s + [x])[..|s|] == s;
  }

  function PairsTo(b: Byte, j: nat): seq<bool>
    requires j <= 4
  {
    if j == 0 then [] else PairsTo(b, j - 1) + [PairBit(b, j - 1)]
  }

  lemma FourPairs(b: Byte)
    ensures PairsTo(b, 4) == FourBits(b)
  {
    hide GetBit;
    assert PairsTo(b, 1) == [PairBit(b, 0)];
    assert PairsTo(b, 2) == [PairBit(b, 0), PairBit(b, 1)];
    assert PairsTo(b, 3) == [PairBit(b, 0), PairBit(b, 1), PairBit(b, 2)];
  }

  /** The inner loop of the unpacking: the four pairs of b are shifted into a data byte that holds
      the bits s. */
  method AddPairs(b: Byte, byte: nat, ghost s: seq<bool>) returns (ok: bool, r: nat)
    requires |s| <= 4 && byte == ValueOf(s)
    ensures ok <==> forall j: nat | j < 4 :: PairOk(b, j)
    ensures ok ==> r == ValueOf(s + FourBits(b))
  {
    hide GetBit, ValueOf;
    r := byte;
    var j := 0;
    assert s + PairsTo(b, 0) == s;
    while j < 4
      invariant 0 <= j <= 4 && |PairsTo(b, j)| == j
      invariant forall k: nat | k < j :: PairOk(b, k)
      invariant r == ValueOf(s + PairsTo(b, j))
    {
      SevenBits(s + PairsTo(b, j));
      r := (r * 2) % 256;
      var first, second := GetBit(b, 7 - j * 2), GetBit(b, 6 - j * 2);
      if !first && second {
        r := r + 1;
      } else if first == second {
        assert !PairOk(b, j);
        return false, r;
      }
      Shifted(s + PairsTo(b, j), second);
      assert s + PairsTo(b, j + 1) == s + PairsTo(b, j) + [second];
      j := j + 1;
    }
    FourPairs(b);
    ok := true;
  }

  /** Sixteen received bytes into eight data bytes, or false on the first bad pair. */
  method UnpackFrame(rx: seq<Byte>) returns (ok: bool, d: array<nat>)
    requires |rx| == 16
    ensures ok <==> PairsOk(rx)
    ensures fresh(d) && d.Length == 8 && (ok ==> d[..] == Unpack(rx))
  {
    hide GetBit, ValueOf, FourBits, ByteOf, PairOk;
    NothingYet();
    d := new nat[8](_ => 0);
    var i := 0;
    while i < 16
      invariant 0 <= i <= 16
      invariant forall k: nat, j: nat | k < i && j < 4 :: PairOk(rx[k], j)
      invariant forall r: nat | r < i / 2 :: d[r] == ByteOf(PairBits(rx[2 * r], rx[2 * r + 1]))
      invariant i < 16 ==> d[i / 2] == ValueOf(HalfDone(rx, i))
      invariant forall r: nat | i / 2 < r < 8 :: d[r] == 0
    {
      var good, byte := AddPairs(rx[i], d[i / 2], HalfDone(rx, i));
      if !good {
        return false, d;
      }
      d[i / 2] := byte;
      HalfByte(rx, i);
      NothingYet();
      i := i + 1;
    }
    ok := true;
    assert d[..] == Unpack(rx);
  }

  function HalfDone(rx: seq<Byte>, i: nat): (s: seq<bool>)
    requires |rx| == 16 && i < 16
    ensures |s| <= 4
  {
    if i % 2 == 0 then [] else FourBits(rx[i - 1])
  }

  lemma NothingYet()
    ensures ValueOf([]) == 0
  {
  }

  lemma HalfByte(rx: seq<Byte>, i: nat)
    requires |rx| == 16 && i < 16
    ensures i % 2 == 1 ==> ValueOf(HalfDone(rx, i) + FourBits(rx[i])) == ByteOf(PairBits(rx[i - 1], rx[i]))
    ensures i % 2 == 0 ==> HalfDone(rx, i) + FourBits(rx[i]) == HalfDone(rx, i + 1)
  {
    hide ValueOf;
  }

  /** The validity loops: ones of row i and of the column of bit i, counted from the low end. */
  method CheckParity(d: seq<Byte>) returns (ok: bool)
    requires |d| == 8
    ensures ok <==> EvenParity(d)
  {
    hide GetBit;
    var i := 0;
    while i < 8
      invariant 0 <= i <= 8
      invariant forall r: nat | r < i :: RowOnes(d, r, 8) % 2 == 0
      invariant forall c: nat | 8 - i <= c < 8 :: ColumnOnes(d, c, 8) % 2 == 0
    {
      var validity1, validity2, j := 0, 0, 0;
      while j < 8
        invariant 0 <= j <= 8
        invariant validity1 + RowOnes(d, i, 8 - j) == RowOnes(d, i, 8)
        invariant validity2 == ColumnOnes(d, 7 - i, j)
      {
        if GetBit(d[i], j) {
          validity1 := validity1 + 1;
        }
        if GetBit(d[j], i) {
          validity2 := validity2 + 1;
        }
        assert Cell(d, i, 7 - j) == GetBit(d[i], j) && Cell(d, j, 7 - i) == GetBit(d[j], i);
        j := j + 1;
      }
      if validity1 % 2 != 0 || validity2 % 2 != 0 {
        return false;
      }
      i := i + 1;
    }
    return true;
  }

  lemma LongerField(d: seq<Byte>, q: nat, i: nat)
    requires |d| == 8 && q + i < 56
    ensures FieldBits(d, q, i + 1) == FieldBits(d, q, i) + [Payload(d, q + i)]
  {
    hide Payload;
  }

  /** A field is shifted together bit by bit. */
  method ReadField(d: seq<Byte>, q: nat, n: nat) returns (number: nat)
    requires |d| == 8 && q + n <= 56
    ensures number == Field(d, q, n)
  {
    hide GetBit, FieldBits;
    number := 0;
    var i := 0;
    while i < n
      invariant 0 <= i <= n
      invariant number == ValueOf(FieldBits(d, q, i))
    {
      LongerField(d, q, i);
      Shifted(FieldBits(d, q, i), Payload(d, q + i));
      number := number * 2;
      if GetBit(d[(i + q) / 7], 7 - (i + q) % 7) {
        number := number + 1;
      }
      i := i + 1;
    }
  }

  /** What get_thread_MS must return for a frame to be looked at. */
  const LISTENING: nat := 11

  class Decoder {
    var msid: nat
    var msv: nat
    var flags: seq<bool>
    var version: nat
    var rssi: int

    function State(): Receiver
      reads this
    {
      Receiver(msid, msv, flags, version)
    }

    constructor ()
      ensures State() == Power()
    {
      msid, msv, version, rssi := 0, 0, 0, 0;
      flags := Power().flags;
    }

    /** rf4068_rx_callback; true when it calls set_thread_MS. */
    method Callback(rssi: int, rx: seq<Byte>, threadMs: nat) returns (notify: bool)
      modifies this
      ensures State() == Step(old(State()), rx, threadMs == LISTENING)
      ensures notify == Notifies(old(State()), rx, threadMs == LISTENING)
      ensures this.rssi == rssi && (threadMs != 11 ==> State() == old(State()) && !notify)
    {
      hide Unpack, EvenParity, FieldBits, ValueOf, NoFlags;
      this.rssi := rssi;
      notify := false;
      if |rx| != 16 || threadMs != LISTENING {
        return;
      }
      var ok, buffer := UnpackFrame(rx);
      if !ok {
        return;
      }
      var d: seq<Byte> := buffer[..];
      ok := CheckParity(d);
      if !ok {
        return;
      }
      notify := StoreFrame(d);
    }

    /** Version, layout and fields of a valid frame. */
    method StoreFrame(d: seq<Byte>) returns (notify: bool)
      requires |d| == 8
      modifies this
      ensures State() == Store(old(State()), Decode(d)) && rssi == old(rssi)
      ensures notify == match Decode(d) {
                          case Status(id, _) => id == old(msid)
                          case Value(_, _) => false
                          case Report(_, _, _, _) => true }
    {
      hide FieldBits, ValueOf;
      version := ReadField(d, 0, 2);
      notify := false;
      if version == 0 {
        var number := ReadField(d, 29, 5);
        if number == 0x1f {
          number := ReadField(d, 2, 27);
          notify := true;
          if msid != number {
            msid := number;
            msv := 0;
            notify := false;
          }
          flags := FieldBits(d, 34, 10);
        } else {
          msid := ReadField(d, 2, 27);
          msv := ReadField(d, 29, 27);
        }
      } else {
        flags := FieldBits(d, 2, 2) + NoFlags(8);
        msid := ReadField(d, 4, 20);
        msv := ReadField(d, 24, 20);
        notify := true;
      }
    }
  }
}
