/** The meter frames decoded by the 406.8 MHz receive callback, and the meter number (msid) and
    reading (msv) it keeps. */
module RadioFrames {
  import opened Numbers
  import opened RadioCode

  /** n payload bits from place q on, the highest first. */
  function FieldBits(d: seq<Byte>, q: nat, n: nat): (s: seq<bool>)
    requires |d| == 8 && q + n <= 56
    ensures |s| == n && forall i: nat | i < n :: s[i] == Payload(d, q + i)
  {
    seq(n, i requires 0 <= i < n => Payload(d, q + i))
  }

  function Field(d: seq<Byte>, q: nat, n: nat): nat
    requires |d| == 8 && q + n <= 56
  {
    ValueOf(FieldBits(d, q, n))
  }

  datatype Message =
    | Status(id: nat, flags: seq<bool>)
    | Value(id: nat, value: nat)
    | Report(version: nat, id: nat, flags: seq<bool>, value: nat)

  /** The layouts: version 0 with 11111 in places 29 to 33 is a status frame, other version-0
      frames carry a value, frames of other versions carry two flags and a value. */
  function Decode(d: seq<Byte>): Message
    requires |d| == 8
  {
    if Field(d, 0, 2) != 0 then
      Report(Field(d, 0, 2), Field(d, 4, 20), FieldBits(d, 2, 2), Field(d, 24, 20))
    else if Field(d, 29, 5) == 0x1f then
      Status(Field(d, 2, 27), FieldBits(d, 34, 10))
    else
      Value(Field(d, 2, 27), Field(d, 29, 27))
  }

  // ------------------------------------------------------------------ the receiver's state

  datatype Receiver = Receiver(msid: nat, msv: nat, flags: seq<bool>, version: nat)

  function Power(): Receiver {
    Receiver(0, 0, [false, false, false, false, false, false, false, false, false, false], 0)
  }

  function NoFlags(n: nat): seq<bool> {
    if n == 0 then [] else [false] + NoFlags(n - 1)
  }

  /** A status frame of another meter selects that meter and forgets the reading. */
  function Store(s: Receiver, m: Message): Receiver {
    match m
    case Status(id, flags) => Receiver(id, if s.msid == id then s.msv else 0, flags, 0)
    case Value(id, value) => Receiver(id, value, s.flags, 0)
    case Report(version, id, flags, value) => Receiver(id, value, flags + NoFlags(8), version)
  }

  /** The frames that are decoded at all. */
  ghost predicate Accepts(rx: seq<Byte>, listening: bool) {
    listening && PairsOk(rx) && EvenParity(Unpack(rx))
  }

  ghost function Step(s: Receiver, rx: seq<Byte>, listening: bool): Receiver {
    if Accepts(rx, listening) then Store(s, Decode(Unpack(rx))) else s
  }

  /** Whether the callback tells the rest of the program that the meter has answered. */
  ghost function Notifies(s: Receiver, rx: seq<Byte>, listening: bool): bool {
    Accepts(rx, listening) &&
    match Decode(Unpack(rx))
    case Status(id, _) => id == s.msid
    case Value(_, _) => false
    case Report(_, _, _, _) => true
  }

  // ------------------------------------------------------------------ runs

  datatype Reception = Reception(rx: seq<Byte>, listening: bool)

  ghost function After(s: Receiver, rs: seq<Reception>): Receiver {
    if rs == [] then s else Step(After(s, rs[..|rs| - 1]), rs[|rs| - 1].rx, rs[|rs| - 1].listening)
  }

  ghost predicate Good(r: Reception) {
    Accepts(r.rx, r.listening)
  }

  ghost function Heard(r: Reception): Message
    requires Good(r)
  {
    Decode(Unpack(r.rx))
  }

  /** Frame k carried this reading of this meter. */
  ghost predicate Carries(r: Reception, id: nat, value: nat) {
    Good(r) && Heard(r).id == id && !Heard(r).Status? && Heard(r).value == value
  }

  /** A frame that leaves meter and reading alone: a rejected one or a status frame of that meter. */
  ghost predicate Leaves(r: Reception, id: nat) {
    Good(r) ==> Heard(r).Status? && Heard(r).id == id
  }

  ghost predicate Explained(rs: seq<Reception>, id: nat, value: nat) {
    exists k: nat :: k < |rs| && Carries(rs[k], id, value) && forall j | k < j < |rs| :: Leaves(rs[j], id)
  }

  lemma ExplainedLater(rs: seq<Reception>, id: nat, value: nat)
    requires rs != [] && Explained(rs[..|rs| - 1], id, value) && Leaves(rs[|rs| - 1], id)
    ensures Explained(rs, id, value)
  {
    hide Carries, Leaves;
    var n := |rs| - 1;
    var k: nat :| k < n && Carries(rs[..n][k], id, value) && forall j | k < j < n :: Leaves(rs[..n][j], id);
    assert Carries(rs[k], id, value);
    forall j | k < j < |rs| ensures Leaves(rs[j], id) {
      if j < n { assert rs[..n][j] == rs[j]; }
    }
  }

  lemma StoreOne(t: Receiver, r: Reception)
    ensures var s := Step(t, r.rx, r.listening);
            Carries(r, s.msid, s.msv) || s.msv == 0 || (s.msid == t.msid && s.msv == t.msv && Leaves(r, s.msid))
  {
    hide Accepts, Decode, Unpack;
  }

  /** Over every sequence of received frames the reading is 0 or was carried by a frame of the
      current meter, after which only rejected frames and status frames of that meter came in. */
  lemma {:induction false} ReadingBelongsToMeter(rs: seq<Reception>)
    ensures var s := After(Power(), rs); s.msv == 0 || Explained(rs, s.msid, s.msv)
  {
    if rs != [] {
      var n := |rs| - 1;
      var t, r := After(Power(), rs[..n]), rs[n];
      var s := After(Power(), rs);
      ReadingBelongsToMeter(rs[..n]);
      AfterLast(Power(), rs);
      StoreOne(t, r);
      hide After, Step, Leaves, Carries;
      if Carries(r, s.msid, s.msv) {
        assert Carries(rs[n], s.msid, s.msv);
      } else if s.msv != 0 {
        ExplainedLater(rs, s.msid, s.msv);
      }
    }
  }

  lemma StoreCarried(t: Receiver, r: Reception, id: nat, value: nat)
    ensures var s := Step(t, r.rx, r.listening);
            && (Carries(r, id, value) ==> s.msid == id && s.msv == value)
            && (Leaves(r, id) && t.msid == id ==> s.msid == id && s.msv == t.msv)
  {
    hide Accepts, Decode, Unpack;
  }

  /** Conversely such a reading is what the receiver holds. */
  lemma {:induction false} ReadingIsKept(rs: seq<Reception>, id: nat, value: nat)
    requires Explained(rs, id, value)
    ensures After(Power(), rs).msid == id && After(Power(), rs).msv == value
  {
    var n := |rs| - 1;
    AfterLast(Power(), rs);
    StoreCarried(After(Power(), rs[..n]), rs[n], id, value);
    ExplainedBefore(rs, id, value);
    hide After, Step, Leaves, Carries, Explained;
    if Explained(rs[..n], id, value) { ReadingIsKept(rs[..n], id, value); }
  }

  lemma ExplainedBefore(rs: seq<Reception>, id: nat, value: nat)
    requires Explained(rs, id, value)
    ensures rs != []
    ensures Carries(rs[|rs| - 1], id, value) || (Leaves(rs[|rs| - 1], id) && Explained(rs[..|rs| - 1], id, value))
  {
    hide Leaves, Carries;
    var n := |rs| - 1;
    var k: nat :| k < |rs| && Carries(rs[k], id, value) && forall j | k < j < |rs| :: Leaves(rs[j], id);
    if k < n {
      assert Carries(rs[..n][k], id, value);
      forall j | k < j < n ensures Leaves(rs[..n][j], id) {
        assert Leaves(rs[j], id);
      }
    }
  }

  lemma AfterLast(s: Receiver, rs: seq<Reception>)
    requires rs != []
    ensures After(s, rs) == Step(After(s, rs[..|rs| - 1]), rs[|rs| - 1].rx, rs[|rs| - 1].listening)
  {
  }

  // ------------------------------------------------------------------ frames built to a layout

  /** The 49 payload bits of a message.  A version-0 reading of 27 bits does not fit: only its
      upper 20 bits do. */
  function PayloadOf(m: Message): (p: seq<bool>)
    requires WellFormed(m)
    ensures |p| == 49
  {
    match m
    case Status(id, flags) => BitsOf(0, 2) + BitsOf(id, 27) + BitsOf(0x1f, 5) + flags + BitsOf(0, 5)
    case Value(id, value) => BitsOf(0, 2) + BitsOf(id, 27) + BitsOf(value, 27)[..20]
    case Report(version, id, flags, value) => BitsOf(version, 2) + flags + BitsOf(id, 20) + BitsOf(value, 20) + BitsOf(0, 5)
  }

  predicate WellFormed(m: Message) {
    match m
    case Status(id, flags) => id < Pow2(27) && |flags| == 10
    case Value(id, value) => id < Pow2(27) && value < Pow2(27) && BitsOf(value, 27)[..5] != BitsOf(0x1f, 5)
    case Report(version, id, flags, value) => 1 <= version <= 3 && id < Pow2(20) && value < Pow2(20) && |flags| == 2
  }

  function Encode(m: Message): seq<Byte>
    requires WellFormed(m)
  {
    Pack(Build(PayloadOf(m)))
  }

  lemma BuiltField(p: seq<bool>, q: nat, n: nat)
    requires |p| == 49 && q + n <= 49
    ensures FieldBits(Build(p), q, n) == p[q..q + n]
  {
    hide Build, Payload;
    forall i: nat | i < n ensures FieldBits(Build(p), q, n)[i] == p[q..q + n][i] { BuiltPayload(p, q + i); }
  }

  /** Every frame built to a layout is accepted. */
  lemma EncodeAccepted(m: Message)
    requires WellFormed(m)
    ensures Accepts(Encode(m), true) && Unpack(Encode(m)) == Build(PayloadOf(m))
  {
    hide Build, PayloadOf, Pack, Unpack, WellFormed, EvenParity;
    PackRoundTrip(Build(PayloadOf(m)));
    BuildIsEven(PayloadOf(m));
  }

  lemma SmallNumbers()
    ensures ValueOf(BitsOf(0, 2)) == 0 && ValueOf(BitsOf(0x1f, 5)) == 0x1f
  {
    assert Pow2(2) == 4 && Pow2(5) == 32;
    ValueOfBits(0, 2);
    ValueOfBits(0x1f, 5);
  }

  /** Status frames and frames of versions 1 to 3 decode to the fields they were built from. */
  lemma RoundTrip(m: Message)
    requires WellFormed(m) && !m.Value?
    ensures Accepts(Encode(m), true) && Decode(Unpack(Encode(m))) == m
  {
    EncodeAccepted(m);
    if m.Status? { StatusRoundTrip(m); } else { ReportRoundTrip(m); }
  }

  /** What a status frame or a frame of versions 1 to 3 leaves behind, whatever came before: the
      current meter and its flags, and a reading unless the frame is a status frame, which keeps
      the reading of its own meter only.  The program is told of every such frame but the status
      frame of a meter that was not the current one. */
  lemma FrameShows(rs: seq<Reception>, m: Message)
    requires WellFormed(m) && !m.Value?
    ensures var t, r := After(Power(), rs), Reception(Encode(m), true);
            var s := After(Power(), rs + [r]);
            && s.msid == m.id
            && s.msv == (if m.Report? then m.value else if t.msid == m.id then t.msv else 0)
            && s.version == (if m.Report? then m.version else 0)
            && |s.flags| == 10 && s.flags[..|m.flags|] == m.flags && (forall k | |m.flags| <= k < 10 :: !s.flags[k])
            && (Notifies(t, r.rx, r.listening) <==> m.Report? || t.msid == m.id)
  {
    var t, r := After(Power(), rs), Reception(Encode(m), true);
    AfterLast(Power(), rs + [r]);
    assert (rs + [r])[..|rs|] == rs;
    FrameStores(t, m);
    StoreShows(t, m);
    hide After, Encode, Step, Store, Notifies, WellFormed;
  }

  lemma FrameStores(t: Receiver, m: Message)
    requires WellFormed(m) && !m.Value?
    ensures Step(t, Encode(m), true) == Store(t, m)
    ensures Notifies(t, Encode(m), true) <==> m.Report? || t.msid == m.id
  {
    RoundTrip(m);
    hide Accepts, Decode, Unpack, Encode, Store, WellFormed;
  }

  lemma StoreShows(t: Receiver, m: Message)
    requires WellFormed(m) && !m.Value?
    ensures var s := Store(t, m);
            && s.msid == m.id
            && s.msv == (if m.Report? then m.value else if t.msid == m.id then t.msv else 0)
            && s.version == (if m.Report? then m.version else 0)
            && |s.flags| == 10 && s.flags[..|m.flags|] == m.flags && (forall k | |m.flags| <= k < 10 :: !s.flags[k])
  {
    EightFalse();
    hide NoFlags, BitsOf, Pow2;
  }

  /** A rejected frame, and any frame while nobody listens, changes nothing and tells nobody. */
  lemma RejectedShows(rs: seq<Reception>, r: Reception)
    requires !r.listening || !PairsOk(r.rx) || !EvenParity(Unpack(r.rx))
    ensures After(Power(), rs + [r]) == After(Power(), rs)
    ensures !Notifies(After(Power(), rs), r.rx, r.listening)
  {
    AfterLast(Power(), rs + [r]);
    assert (rs + [r])[..|rs|] == rs;
    hide Decode, Unpack, After;
  }

  lemma EightFalse()
    ensures |NoFlags(8)| == 8 && forall k | 0 <= k < 8 :: !NoFlags(8)[k]
  {
    assert NoFlags(4) == [false, false, false, false];
    assert NoFlags(8) == [false, false, false, false] + NoFlags(4);
  }

  lemma StatusRoundTrip(m: Message)
    requires WellFormed(m) && m.Status?
    ensures Decode(Build(PayloadOf(m))) == m
  {
    hide Build, Payload, ValueOf, BitsOf, Pow2;
    var p := PayloadOf(m);
    BuiltField(p, 0, 2);
    BuiltField(p, 29, 5);
    BuiltField(p, 2, 27);
    BuiltField(p, 34, 10);
    assert p[0..2] == BitsOf(0, 2) && p[29..34] == BitsOf(0x1f, 5) && p[2..29] == BitsOf(m.id, 27) && p[34..44] == m.flags;
    SmallNumbers();
    ValueOfBits(m.id, 27);
  }

  lemma ReportRoundTrip(m: Message)
    requires WellFormed(m) && m.Report?
    ensures Decode(Build(PayloadOf(m))) == m
  {
    hide Build, PayloadOf, FieldBits, ValueOf, BitsOf, Pow2;
    ReportFields(m);
    TwoBits(m.version);
    ValueOfBits(m.id, 20);
    ValueOfBits(m.value, 20);
  }

  lemma TwoBits(version: nat)
    requires version <= 3
    ensures ValueOf(BitsOf(version, 2)) == version
  {
    assert Pow2(2) == 4;
    ValueOfBits(version, 2);
  }

  lemma ReportFields(m: Message)
    requires WellFormed(m) && m.Report?
    ensures var d := Build(PayloadOf(m));
            && FieldBits(d, 0, 2) == BitsOf(m.version, 2) && FieldBits(d, 2, 2) == m.flags
            && FieldBits(d, 4, 20) == BitsOf(m.id, 20) && FieldBits(d, 24, 20) == BitsOf(m.value, 20)
  {
    hide Build, PayloadOf, FieldBits, BitsOf, Pow2;
    var p := PayloadOf(m);
    ReportParts(m);
    BuiltField(p, 0, 2);
    BuiltField(p, 2, 2);
    BuiltField(p, 4, 20);
    BuiltField(p, 24, 20);
  }

  lemma ReportParts(m: Message)
    requires WellFormed(m) && m.Report?
    ensures var p := PayloadOf(m);
            p[0..2] == BitsOf(m.version, 2) && p[2..4] == m.flags && p[4..24] == BitsOf(m.id, 20) && p[24..44] == BitsOf(m.value, 20)
  {
    hide BitsOf, Pow2;
  }

  // ------------------------------------------------------------------ version-0 readings

  /** The parities of the seven payload columns, which a frame carries in places 49 to 55. */
  function ColumnParities(p: seq<bool>): (s: seq<bool>)
    requires |p| == 49
    ensures |s| == 7
  {
    seq(7, c requires 0 <= c < 7 => ColumnOnes(Build(p), c, 7) % 2 == 1)
  }

  /** A version-0 reading is read from places 29 to 55, seven of which are parity bits: a frame
      delivers the reading it was built for exactly when the lowest seven bits of the reading
      happen to be the column parities of the payload. */
  lemma ValueRoundTrip(m: Message)
    requires WellFormed(m) && m.Value?
    ensures Accepts(Encode(m), true)
    ensures Decode(Unpack(Encode(m))) == m <==> BitsOf(m.value, 27)[20..] == ColumnParities(PayloadOf(m))
  {
    hide Build, Unpack, PayloadOf, Decode, Accepts, Encode, ColumnParities, Field, ValueOf, BitsOf, Pow2;
    EncodeAccepted(m);
    ValueDecodes(m);
    ValueReads(m);
    SameReading(m.value, ColumnParities(PayloadOf(m)));
  }

  /** What is read back: the upper twenty bits of the reading, then the column parities. */
  lemma ValueReads(m: Message)
    requires WellFormed(m) && m.Value?
    ensures Field(Build(PayloadOf(m)), 29, 27) == ValueOf(BitsOf(m.value, 27)[..20] + ColumnParities(PayloadOf(m)))
  {
    hide Build, FieldBits, BitsOf, Pow2, ColumnParities;
    ReadingBits(PayloadOf(m));
    assert PayloadOf(m)[29..49] == BitsOf(m.value, 27)[..20];
  }

  /** A reading survives when its last seven bits are what they are replaced with. */
  lemma SameReading(value: nat, last: seq<bool>)
    requires value < Pow2(27) && |last| == 7
    ensures ValueOf(BitsOf(value, 27)[..20] + last) == value <==> BitsOf(value, 27)[20..] == last
  {
    var bits := BitsOf(value, 27);
    var read := bits[..20] + last;
    ValueOfBits(value, 27);
    BitsOfValue(read);
    hide BitsOf, ValueOf, Pow2;
    assert read[20..] == last;
    assert bits == bits[..20] + bits[20..];
  }

  lemma ReadingBits(p: seq<bool>)
    requires |p| == 49
    ensures FieldBits(Build(p), 29, 27) == p[29..49] + ColumnParities(p)
  {
    hide Build, Payload;
    var s := FieldBits(Build(p), 29, 27);
    forall i: nat | i < 27 ensures s[i] == (p[29..49] + ColumnParities(p))[i] {
      if i < 20 { BuiltPayload(p, 29 + i); } else { BuiltParityRow(p, i - 20); }
    }
  }

  /** Such a frame is read as a version-0 value of the right meter. */
  lemma ValueDecodes(m: Message)
    requires WellFormed(m) && m.Value?
    ensures Decode(Build(PayloadOf(m))) == Value(m.id, Field(Build(PayloadOf(m)), 29, 27))
  {
    hide Build, Payload, ValueOf, BitsOf, Pow2;
    var p := PayloadOf(m);
    BuiltField(p, 0, 2);
    BuiltField(p, 2, 27);
    BuiltField(p, 29, 5);
    var bits := BitsOf(m.value, 27);
    assert p[0..2] == BitsOf(0, 2) && p[2..29] == BitsOf(m.id, 27) && p[29..34] == bits[..5];
    SmallNumbers();
    ValueOfBits(m.id, 27);
    BitsOfValue(bits[..5]);
    BitsOfValue(BitsOf(0x1f, 5));
  }

  /** What a version-0 reading leaves behind: its meter, a reading whose upper twenty bits are right,
      and the flags as they were; the program is not told. */
  lemma ReadingShows(rs: seq<Reception>, m: Message)
    requires WellFormed(m) && m.Value?
    ensures var t, r := After(Power(), rs), Reception(Encode(m), true);
            var s := After(Power(), rs + [r]);
            && s.msid == m.id && s.version == 0 && s.flags == t.flags
            && s.msv == ValueOf(BitsOf(m.value, 27)[..20] + ColumnParities(PayloadOf(m)))
            && !Notifies(t, r.rx, r.listening)
  {
    var r := Reception(Encode(m), true);
    AfterLast(Power(), rs + [r]);
    assert (rs + [r])[..|rs|] == rs;
    EncodeAccepted(m);
    ValueDecodes(m);
    ValueReads(m);
    hide Build, Unpack, PayloadOf, Decode, Accepts, Encode, ColumnParities, Field, ValueOf, BitsOf, Pow2, After;
  }

  /** Of the 128 readings that share their upper twenty bits, the frame can deliver one only. */
  lemma OneOf128(m: Message, n: Message)
    requires WellFormed(m) && WellFormed(n) && m.Value? && n.Value? && m.id == n.id && m.value != n.value
    requires BitsOf(m.value, 27)[..20] == BitsOf(n.value, 27)[..20]
    ensures Encode(m) == Encode(n)
    ensures Decode(Unpack(Encode(m))) != m || Decode(Unpack(Encode(n))) != n
  {
    hide Build, Unpack, Decode, Pack, ValueOf, BitsOf, Pow2;
    assert PayloadOf(m) == PayloadOf(n);
  }

  /** One that is lost: reading 1 of meter 0, whose other payload bits are all 0. */
  lemma ReadingOneIsLost()
    ensures WellFormed(Value(0, 1)) && Accepts(Encode(Value(0, 1)), true)
    ensures Decode(Unpack(Encode(Value(0, 1)))) != Value(0, 1)
  {
    hide Build, Unpack, Decode, Encode, Accepts, PayloadOf, Pow2, BitsOf, ColumnParities;
    OneFits();
    ValueRoundTrip(Value(0, 1));
    NoParity();
    OneBits();
    assert BitsOf(1, 27)[20..][6] == BitsOf(1, 27)[26];
  }

  lemma NoParity()
    requires WellFormed(Value(0, 1))
    ensures !ColumnParities(PayloadOf(Value(0, 1)))[6]
  {
    hide Build, PayloadOf, WellFormed;
    ZeroPayload();
    NoOnes(PayloadOf(Value(0, 1)), 6);
  }

  lemma ZeroPayload()
    requires WellFormed(Value(0, 1))
    ensures forall k: nat | k < 49 :: !PayloadOf(Value(0, 1))[k]
  {
    hide BitsOf, Pow2;
    ZeroBits(2);
    ZeroBits(27);
    OneBits();
    var p := PayloadOf(Value(0, 1));
    assert p == BitsOf(0, 2) + BitsOf(0, 27) + BitsOf(1, 27)[..20];
  }

  lemma OneFits()
    ensures WellFormed(Value(0, 1))
  {
    OneBits();
    assert Pow2(27) == 2 * Pow2(26);
    assert BitsOf(1, 1) == [true];
    assert BitsOf(3, 2) == BitsOf(1, 1) + [true];
    assert BitsOf(7, 3) == BitsOf(3, 2) + [true];
    assert BitsOf(15, 4) == BitsOf(7, 3) + [true];
    assert BitsOf(0x1f, 5) == BitsOf(15, 4) + [true];
    hide Pow2, BitsOf;
    assert !BitsOf(1, 27)[..5][0] && BitsOf(0x1f, 5)[0];
  }

  lemma {:induction false} ZeroBits(w: nat)
    ensures forall k: nat | k < w :: !BitsOf(0, w)[k]
  {
    if w > 0 { ZeroBits(w - 1); }
  }

  lemma OneBits()
    ensures BitsOf(1, 27)[26] && forall k: nat | k < 26 :: !BitsOf(1, 27)[k]
  {
    hide BitsOf;
    ZeroBits(26);
    LastOfBits(1, 26);
  }

  /** A payload without ones has no ones in the columns above the parity row. */
  lemma NoOnes(p: seq<bool>, c: nat)
    requires |p| == 49 && c < 7 && forall k: nat | k < 49 :: !p[k]
    ensures ColumnOnes(Build(p), c, 7) == 0
  {
    NoOnesTo(p, c, 7);
  }

  lemma {:induction false} NoOnesTo(p: seq<bool>, c: nat, n: nat)
    requires |p| == 49 && c < 7 && n <= 7 && forall k: nat | k < 49 :: !p[k]
    ensures ColumnOnes(Build(p), c, n) == 0
  {
    hide Build, Cell;
    if n > 0 {
      NoOnesTo(p, c, n - 1);
      BuiltPayload(p, 7 * (n - 1) + c);
      assert (7 * (n - 1) + c) / 7 == n - 1 && (7 * (n - 1) + c) % 7 == c;
    }
  }
}
