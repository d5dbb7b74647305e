/**
 The DHT20 sensor frame (components/dsp_dht20/dsp_dht20.c): its CRC-8 and the
 two 20-bit readings packed into bytes 1 to 5.
 */
module Dht20 {
  import opened Bytes
  import opened BitRegister

  const POLY: byte := 0x31
  const INITIAL: byte := 0xFF

  // ---------------------------------------------------------------------
  // The algorithm
  // ---------------------------------------------------------------------

  function Shift(c: byte): byte {
    if c & 0x80 != 0 then (c << 1) ^ POLY else c << 1
  }

  function ShiftN(c: byte, n: nat): byte
    decreases n
  {
    if n == 0 then c else ShiftN(Shift(c), n - 1)
  }

  function Xor(a: byte, b: byte): byte {
    a ^ b
  }

  /** One byte is mixed in and shifted through. */
  function Mix(c: byte, b: byte): byte {
    ShiftN(Xor(c, b), 8)
  }

  function Feed(c: byte, data: seq<byte>): byte {
    FeedAll(Mix, c, data)
  }

  method Crc8(data: seq<byte>, len: nat) returns (crc: byte)
    requires len <= |data|
    ensures crc == Feed(INITIAL, data[..len])
  {
    crc := INITIAL;
    var n := len;
    var at := 0;
    while n > 0
      invariant 0 <= n <= len && at == len - n
      invariant Feed(crc, data[at..len]) == Feed(INITIAL, data[..len])
    {
      n := n - 1;
      assert data[at..len][1..] == data[at + 1..len];
      crc := crc ^ data[at];
      at := at + 1;
      ghost var mixed := crc;
      for i := 0 to 8
        invariant ShiftN(crc, 8 - i) == ShiftN(mixed, 8)
      {
        crc := if crc & 0x80 != 0 then (crc << 1) ^ POLY else crc << 1;
      }
    }
  }

  // ---------------------------------------------------------------------
  // The same register, one message bit at a time, most significant first
  // ---------------------------------------------------------------------

  function Bit(b: bool): byte {
    if b then 0x80 else 0
  }

  function BitStep(c: byte, b: bool): byte {
    Shift(Xor(c, Bit(b)))
  }

  function HighBits(w: byte, n: nat): (bits: seq<bool>)
    ensures |bits| == n
    decreases n
  {
    if n == 0 then [] else [w & 0x80 != 0] + HighBits(w << 1, n - 1)
  }

  /** What is left of `w` once its `n` high-order bits have been shifted out. */
  function Drop(w: byte, n: nat): byte
    decreases n
  {
    if n == 0 then w else Drop(w << 1, n - 1)
  }

  function ByteBits(b: byte): (bits: seq<bool>)
    ensures |bits| == 8
  {
    HighBits(b, 8)
  }

  function BitStream(data: seq<byte>): (bits: seq<bool>)
    ensures |bits| == 8 * |data|
  {
    Stream(ByteBits, data)
  }

  lemma ShiftClearClear(x: byte, y: byte)
    requires x & 0x80 == 0 && y & 0x80 == 0
    ensures Shift(Xor(x, y)) == Xor(Shift(x), Shift(y))
  {}

  lemma ShiftClearSet(x: byte, y: byte)
    requires x & 0x80 == 0 && y & 0x80 != 0
    ensures Shift(Xor(x, y)) == Xor(Shift(x), Shift(y))
  {}

  lemma ShiftSetSet(x: byte, y: byte)
    requires x & 0x80 != 0 && y & 0x80 != 0
    ensures Shift(Xor(x, y)) == Xor(Shift(x), Shift(y))
  {}

  lemma XorCommutes(a: byte, b: byte)
    ensures Xor(a, b) == Xor(b, a)
  {}

  lemma ShiftLinear(x: byte, y: byte)
    ensures Shift(Xor(x, y)) == Xor(Shift(x), Shift(y))
  {
    hide *;
    if x & 0x80 == 0 {
      if y & 0x80 == 0 { ShiftClearClear(x, y); } else { ShiftClearSet(x, y); }
    } else {
      if y & 0x80 == 0 {
        ShiftClearSet(y, x);
        XorCommutes(x, y);
        XorCommutes(Shift(x), Shift(y));
      } else {
        ShiftSetSet(x, y);
      }
    }
  }

  lemma SplitTop(c: byte, w: byte)
    ensures Xor(c, w) == Xor(Xor(c, Bit(w & 0x80 != 0)), w & 0x7F)
  {}

  lemma ShiftOfRest(w: byte)
    ensures Shift(w & 0x7F) == w << 1
  {}

  /** The bits of `w` below the top one leave a shift as `w << 1`. */
  lemma Peel(c: byte, w: byte)
    ensures Shift(Xor(c, w)) == Xor(BitStep(c, w & 0x80 != 0), w << 1)
  {
    hide Shift, Xor, Bit;
    var t := Bit(w & 0x80 != 0);
    SplitTop(c, w);
    ShiftLinear(Xor(c, t), w & 0x7F);
    ShiftOfRest(w);
  }

  lemma XorZero(c: byte)
    ensures Xor(c, 0) == c
  {}

  lemma {:induction false} ShiftNIsRun(c: byte, w: byte, n: nat)
    requires Drop(w, n) == 0
    ensures ShiftN(Xor(c, w), n) == Run(BitStep, c, HighBits(w, n))
    decreases n
  {
    hide Shift, Xor, BitStep;
    if n == 0 {
      XorZero(c);
    } else {
      assert HighBits(w, n)[1..] == HighBits(w << 1, n - 1);
      Peel(c, w);
      ShiftNIsRun(BitStep(c, w & 0x80 != 0), w << 1, n - 1);
    }
  }

  lemma ByteFits(b: byte)
    ensures Drop(b, 8) == 0
  {
    assert b << 1 << 1 << 1 << 1 << 1 << 1 << 1 << 1 == 0;
    assert Drop(b, 8) == Drop(b << 1 << 1 << 1 << 1, 4);
  }

  lemma MixIsSerial()
    ensures Serial(Mix, BitStep, ByteBits)
  {
    hide ShiftN, HighBits, Xor, BitStep, Run, Drop;
    forall c, b ensures TakenSerially(Mix, BitStep, ByteBits, c, b) {
      ByteFits(b);
      ShiftNIsRun(c, b, 8);
    }
  }

  lemma FeedIsRun(c: byte, data: seq<byte>)
    ensures Feed(c, data) == Run(BitStep, c, BitStream(data))
  {
    hide Serial;
    MixIsSerial();
    FeedAllIsRun(Mix, BitStep, ByteBits, c, data);
  }

  // ---------------------------------------------------------------------
  // The laws of the register
  // ---------------------------------------------------------------------

  lemma BitStepLinear(a: byte, b: byte, p: bool, q: bool)
    ensures BitStep(Xor(a, b), p != q) == Xor(BitStep(a, p), BitStep(b, q))
  {
    hide Shift, Bit, Xor;
    BitXor(p, q);
    XorIsAbelian();
    Regroup(Xor, a, b, Bit(p), Bit(q));
    ShiftLinear(Xor(a, Bit(p)), Xor(b, Bit(q)));
  }

  lemma BitXor(x: bool, y: bool)
    ensures Bit(x != y) == Xor(Bit(x), Bit(y))
  {}

  lemma XorAssociates(a: byte, b: byte, c: byte)
    ensures Xor(Xor(a, b), c) == Xor(a, Xor(b, c))
  {}

  lemma XorIsAbelian()
    ensures Abelian(Xor)
  {
    hide Xor;
    forall a, b ensures Xor(a, b) == Xor(b, a) {
      XorCommutes(a, b);
    }
    forall a, b, c ensures Xor(Xor(a, b), c) == Xor(a, Xor(b, c)) {
      XorAssociates(a, b, c);
    }
  }

  lemma XorZeroIffEqual(a: byte, b: byte)
    ensures Xor(a, b) == 0 <==> a == b
  {}

  lemma ZeroBitKeepsZeroness(c: byte)
    ensures BitStep(c, false) == 0 <==> c == 0
  {}

  lemma IsLinear()
    ensures Linear(BitStep, Xor, 0)
  {
    hide BitStep, Xor;
    forall a, b, p, q ensures BitStep(Xor(a, b), p != q) == Xor(BitStep(a, p), BitStep(b, q)) {
      BitStepLinear(a, b, p, q);
    }
    forall a, b ensures Xor(a, b) == 0 <==> a == b {
      XorZeroIffEqual(a, b);
    }
    forall c ensures BitStep(c, false) == 0 <==> c == 0 {
      ZeroBitKeepsZeroness(c);
    }
  }

  /** The parity of the eight register bits. */
  function Parity(c: byte): bool {
    var d := c ^ (c >> 4);
    var e := d ^ (d >> 2);
    (e ^ (e >> 1)) & 1 != 0
  }

  lemma BitStepParity(c: byte, b: bool)
    ensures Parity(BitStep(c, b)) == (Parity(c) != b)
  {}

  lemma IsParityRegister()
    ensures TracksParity(BitStep, Parity)
  {
    hide BitStep, Parity;
    forall c, b ensures Parity(BitStep(c, b)) == (Parity(c) != b) {
      BitStepParity(c, b);
    }
  }

  lemma BackOne(c: byte, b: bool, n: nat)
    requires n <= 7
    requires Drop(BitStep(c, b), n) == 0
    ensures Drop(c, n + 1) == 0
  {
    hide BitStep;
    if BitStep(c, b) & 1 != 0 {
      LowBitSurvives(BitStep(c, b), n);
    } else {
      ShiftUndone(c, b);
    }
  }

  lemma ShiftUndone(c: byte, b: bool)
    requires BitStep(c, b) & 1 == 0
    ensures BitStep(c, b) == c << 1
  {}

  lemma LowBitSurvives(w: byte, n: nat)
    requires w & 1 != 0 && n <= 7
    ensures Drop(w, n) != 0
  {
    var w2 := w << 1 << 1;
    var w4 := w2 << 1 << 1;
    var w6 := w4 << 1 << 1;
    assert w & 0x1 != 0 && (w << 1) & 0x2 != 0 && w2 & 0x4 != 0 && (w2 << 1) & 0x8 != 0;
    assert w4 & 0x10 != 0 && (w4 << 1) & 0x20 != 0 && w6 & 0x40 != 0 && (w6 << 1) & 0x80 != 0;
    assert n >= 2 ==> Drop(w, n) == Drop(w2, n - 2);
    assert n >= 4 ==> Drop(w2, n - 2) == Drop(w4, n - 4);
    assert n >= 6 ==> Drop(w4, n - 4) == Drop(w6, n - 6);
  }

  lemma FirstOneIsLow()
    ensures BitStep(0, true) & 1 != 0
  {}

  predicate Fits(c: byte, n: nat) {
    Drop(c, n) == 0
  }

  lemma FirstOneFills(n: nat)
    requires n < 8
    ensures !Fits(BitStep(0, true), n)
  {
    hide BitStep;
    FirstOneIsLow();
    LowBitSurvives(BitStep(0, true), n);
  }

  lemma SeesShortPatterns()
    ensures SeesPatterns(BitStep, 0, 8)
  {
    hide BitStep, SeesPatterns;
    ZeroBitKeepsZeroness(0);
    forall c, b, n: nat | n < 8 ensures StepsBack(BitStep, Fits, c, b, n) {
      if Fits(BitStep(c, b), n) {
        BackOne(c, b, n);
      }
    }
    forall n: nat | n < 8 ensures !Fits(BitStep(0, true), n) {
      FirstOneFills(n);
    }
    BacktrackingSeesPatterns(BitStep, 0, Fits, 8);
  }

  /** The byte with these high-order bits. */
  function Join(bits: seq<bool>): byte {
    if bits == [] then 0 else Bit(bits[0]) | (Join(bits[1..]) >> 1)
  }

  lemma Rejoin(w: byte)
    ensures Bit(w & 0x80 != 0) | ((w << 1) >> 1) == w
  {}

  lemma {:induction false} JoinHighBits(w: byte, n: nat)
    requires Drop(w, n) == 0
    ensures Join(HighBits(w, n)) == w
    decreases n
  {
    hide Bit;
    if n > 0 {
      assert HighBits(w, n)[1..] == HighBits(w << 1, n - 1);
      JoinHighBits(w << 1, n - 1);
      Rejoin(w);
    }
  }

  lemma ByteBitsInjective(a: byte, b: byte)
    requires ByteBits(a) == ByteBits(b)
    ensures a == b
  {
    hide HighBits, Drop, Join;
    ByteFits(a);
    ByteFits(b);
    JoinHighBits(a, 8);
    JoinHighBits(b, 8);
  }

  /** Distinct frames have distinct bit streams. */
  lemma BitStreamInjective(x: seq<byte>, y: seq<byte>)
    requires |x| == |y| && BitStream(x) == BitStream(y)
    ensures x == y
  {
    hide ByteBits;
    forall a, b | ByteBits(a) == ByteBits(b) ensures a == b {
      ByteBitsInjective(a, b);
    }
    StreamInjective(ByteBits, x, y);
  }

  // ---------------------------------------------------------------------
  // Frames
  // ---------------------------------------------------------------------

  datatype Reading = Rejected | Raw(humidity: bv32, temperature: bv32)

  /** What a received frame means. */
  function Decode(frame: seq<byte>): Reading
    requires |frame| == 7
  {
    if Feed(INITIAL, frame[..6]) != frame[6] then Rejected
    else Raw(Humidity(frame[1], frame[2], frame[3]), Temperature(frame[3], frame[4], frame[5]))
  }

  function Humidity(b1: byte, b2: byte, b3: byte): bv32 {
    ((b1 as bv32) << 12) | ((b2 as bv32) << 4) | ((b3 as bv32) >> 4)
  }

  function Temperature(b3: byte, b4: byte, b5: byte): bv32 {
    (((b3 & 0x0F) as bv32) << 16) | ((b4 as bv32) << 8) | (b5 as bv32)
  }

  /** The readings as numbers: 20 bits each, the most significant octet first, the middle octet shared. */
  lemma ReadingMeans(frame: seq<byte>)
    requires |frame| == 7 && Feed(0xFF, frame[..6]) == frame[6]
    ensures Decode(frame) ==
            Raw((frame[1] as bv32) * 4096 + (frame[2] as bv32) * 16 + (frame[3] as bv32) / 16,
                (frame[3] as bv32) % 16 * 65536 + (frame[4] as bv32) * 256 + (frame[5] as bv32))
  {
    hide Feed;
    FieldsAreNumbers(frame[1], frame[2], frame[3], frame[4], frame[5]);
  }

  lemma FieldsAreNumbers(b1: byte, b2: byte, b3: byte, b4: byte, b5: byte)
    ensures Humidity(b1, b2, b3) == (b1 as bv32) * 4096 + (b2 as bv32) * 16 + (b3 as bv32) / 16
    ensures Temperature(b3, b4, b5) == (b3 as bv32) % 16 * 65536 + (b4 as bv32) * 256 + (b5 as bv32)
  {}

  /** Steps 5 and 6 of the read: check the frame, then take the two fields out. */
  method ReadFrame(buf: seq<byte>) returns (r: Reading)
    requires |buf| == 7
    ensures r == Decode(buf)
  {
    var computed := Crc8(buf, 6);
    if computed != buf[6] {
      return Rejected;
    }
    var rawH := ((buf[1] as bv32) << 12) | ((buf[2] as bv32) << 4) | ((buf[3] as bv32) >> 4);
    var rawT := (((buf[3] & 0x0F) as bv32) << 16) | ((buf[4] as bv32) << 8) | (buf[5] as bv32);
    return Raw(rawH, rawT);
  }

  // The five data bytes a sensor sends for two 20-bit values.

  function Byte1(h: bv32): byte { ((h >> 12) & 0xFF) as byte }
  function Byte2(h: bv32): byte { ((h >> 4) & 0xFF) as byte }
  function Byte3(h: bv32, t: bv32): byte { (((h & 0xF) << 4) | ((t >> 16) & 0xF)) as byte }
  function Byte4(t: bv32): byte { ((t >> 8) & 0xFF) as byte }
  function Byte5(t: bv32): byte { (t & 0xFF) as byte }

  function Body(status: byte, h: bv32, t: bv32): (body: seq<byte>)
    ensures |body| == 6
  {
    [status, Byte1(h), Byte2(h), Byte3(h, t), Byte4(t), Byte5(t)]
  }

  /** The frame a sensor sends for a status byte and two 20-bit values. */
  function Encode(status: byte, h: bv32, t: bv32): (frame: seq<byte>)
    ensures |frame| == 7
  {
    Body(status, h, t) + [Feed(INITIAL, Body(status, h, t))]
  }

  lemma FeedConcat(c: byte, a: seq<byte>, b: seq<byte>)
    ensures Feed(c, a + b) == Feed(Feed(c, a), b)
  {
    FeedAllConcat(Mix, c, a, b);
  }

  lemma {:induction false} ShiftNKeepsZeroness(c: byte, n: nat)
    ensures ShiftN(c, n) == 0 <==> c == 0
    decreases n
  {
    if n > 0 { ShiftNKeepsZeroness(Shift(c), n - 1); }
  }

  lemma FeedOne(c: byte, b: byte)
    ensures Feed(c, [b]) == ShiftN(Xor(c, b), 8)
  {
    hide ShiftN, Xor;
    assert Feed(c, [b]) == Feed(Mix(c, b), [b][1..]);
  }

  /** Running the register over the whole frame leaves zero exactly when the last byte matches. */
  lemma ResidueIsZero(frame: seq<byte>)
    requires |frame| == 7
    ensures Feed(INITIAL, frame) == 0 <==> Feed(INITIAL, frame[..6]) == frame[6]
  {
    hide Feed, ShiftN, Xor;
    assert frame == frame[..6] + [frame[6]];
    FeedConcat(INITIAL, frame[..6], [frame[6]]);
    var c := Feed(INITIAL, frame[..6]);
    FeedOne(c, frame[6]);
    ShiftNKeepsZeroness(Xor(c, frame[6]), 8);
    XorZeroIffEqual(c, frame[6]);
  }

  /** A frame that decodes no longer does after any error burst of at most 8 bits. */
  lemma BurstRejected(frame: seq<byte>, damaged: seq<byte>, from: nat)
    requires |frame| == |damaged| == 7 && frame != damaged
    requires Decode(frame).Raw?
    requires DifferInWindow(BitStream(frame), BitStream(damaged), from, 8)
    ensures Decode(damaged) == Rejected
  {
    hide Feed, BitStream, Humidity, Temperature, DifferInWindow;
    ResidueIsZero(frame);
    ResidueIsZero(damaged);
    if BitStream(frame) == BitStream(damaged) {
      BitStreamInjective(frame, damaged);
    }
    IsLinear();
    SeesShortPatterns();
    BurstSeen(BitStep, Xor, 0, 8, INITIAL, BitStream(frame), BitStream(damaged), from);
    FeedIsRun(INITIAL, frame);
    FeedIsRun(INITIAL, damaged);
  }

  /** Nor after any odd number of flipped bits, wherever they are. */
  lemma OddFlipsRejected(frame: seq<byte>, damaged: seq<byte>)
    requires |frame| == |damaged| == 7
    requires Decode(frame).Raw?
    requires Ones(XorBits(BitStream(frame), BitStream(damaged))) % 2 == 1
    ensures Decode(damaged) == Rejected
  {
    hide Feed, BitStream, Humidity, Temperature, XorBits, Ones;
    ResidueIsZero(frame);
    ResidueIsZero(damaged);
    IsParityRegister();
    OddErrorSeen(BitStep, Parity, INITIAL, BitStream(frame), BitStream(damaged));
    FeedIsRun(INITIAL, frame);
    FeedIsRun(INITIAL, damaged);
  }

  lemma HumidityPacked(h: bv32, t: bv32)
    requires h < 0x10_0000
    ensures Humidity(Byte1(h), Byte2(h), Byte3(h, t)) == h
  {}

  lemma TemperaturePacked(h: bv32, t: bv32)
    requires t < 0x10_0000
    ensures Temperature(Byte3(h, t), Byte4(t), Byte5(t)) == t
  {}

  /** Unpacking inverts packing for every pair of 20-bit values. */
  lemma DecodeEncode(status: byte, h: bv32, t: bv32)
    requires h < 0x10_0000 && t < 0x10_0000
    ensures Decode(Encode(status, h, t)) == Raw(h, t)
  {
    hide Feed, Humidity, Temperature, Byte1, Byte2, Byte3, Byte4, Byte5;
    var frame := Encode(status, h, t);
    assert frame[..6] == Body(status, h, t);
    HumidityPacked(h, t);
    TemperaturePacked(h, t);
  }

  lemma HumidityBytes(b1: byte, b2: byte, b3: byte)
    ensures Byte1(Humidity(b1, b2, b3)) == b1 && Byte2(Humidity(b1, b2, b3)) == b2
    ensures Humidity(b1, b2, b3) < 0x10_0000
  {}

  lemma TemperatureBytes(b3: byte, b4: byte, b5: byte)
    ensures Byte4(Temperature(b3, b4, b5)) == b4 && Byte5(Temperature(b3, b4, b5)) == b5
    ensures Temperature(b3, b4, b5) < 0x10_0000
  {}

  lemma SharedByte(b1: byte, b2: byte, b3: byte, b4: byte, b5: byte)
    ensures Byte3(Humidity(b1, b2, b3), Temperature(b3, b4, b5)) == b3
  {}

  /** Packing what was unpacked gives back every accepted frame, so no accepted bit is lost. */
  lemma EncodeDecode(frame: seq<byte>)
    requires |frame| == 7
    requires Decode(frame).Raw?
    ensures var r := Decode(frame);
            r.humidity < 0x10_0000 && r.temperature < 0x10_0000 && Encode(frame[0], r.humidity, r.temperature) == frame
  {
    hide Feed, Humidity, Temperature, Byte1, Byte2, Byte3, Byte4, Byte5;
    HumidityBytes(frame[1], frame[2], frame[3]);
    TemperatureBytes(frame[3], frame[4], frame[5]);
    SharedByte(frame[1], frame[2], frame[3], frame[4], frame[5]);
    assert frame[..6] == Body(frame[0], Decode(frame).humidity, Decode(frame).temperature);
    assert frame == frame[..6] + [frame[6]];
  }

  // ---------------------------------------------------------------------
  // A known answer
  // ---------------------------------------------------------------------

  lemma FeedAt(c: byte, data: seq<byte>, i: nat, mixed: byte, next: byte)
    requires i < |data| && Xor(c, data[i]) == mixed && ShiftN(mixed, 8) == next
    ensures Feed(c, data[i..]) == Feed(next, data[i + 1..])
  {
    assert data[i..][1..] == data[i + 1..];
  }

  /** The check value of the CRC with this polynomial and start value: the digits 1 to 9. */
  lemma CheckValue()
    ensures Feed(INITIAL, [0x31, 0x32, 0x33, 0x34, 0x35, 0x36, 0x37, 0x38, 0x39]) == 0xF7
  {
    hide Feed;
    var digits: seq<byte> := [0x31, 0x32, 0x33, 0x34, 0x35, 0x36, 0x37, 0x38, 0x39];
    assert digits[0..] == digits && digits[9..] == [];
    FeedAt(0xFF, digits, 0, 0xCE, 0x58);
    FeedAt(0x58, digits, 1, 0x6A, 0x60);
    FeedAt(0x60, digits, 2, 0x53, 0x2D);
    FeedAt(0x2D, digits, 3, 0x19, 0xCB);
    FeedAt(0xCB, digits, 4, 0xFE, 0x9D);
    FeedAt(0x9D, digits, 5, 0xAB, 0x16);
    FeedAt(0x16, digits, 6, 0x21, 0xB7);
    FeedAt(0xB7, digits, 7, 0x8F, 0x54);
    FeedAt(0x54, digits, 8, 0x6D, 0xF7);
    FeedNothing(0xF7);
  }

  lemma FeedNothing(c: byte)
    ensures Feed(c, []) == c
  {}
}
