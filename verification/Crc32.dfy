/**
 The CRC-32 that seals the sleep image (components/dsp_rtc_state/dsp_rtc_state.c).

 The loop consumes bytes; the proofs work on the bits of those bytes, least
 significant first, because that is the order in which the reflected register
 takes them in.
 */
module Crc32 {
  import opened Bytes
  import opened BitRegister

  const POLY: bv32 := 0xEDB88320
  const ONES: bv32 := 0xFFFF_FFFF

  // ---------------------------------------------------------------------
  // The algorithm
  // ---------------------------------------------------------------------

  /** One step of the inner loop. */
  function Shift(c: bv32): bv32 {
    if c & 1 != 0 then (c >> 1) ^ POLY else c >> 1
  }

  function ShiftN(c: bv32, n: nat): bv32
    decreases n
  {
    if n == 0 then c else ShiftN(Shift(c), n - 1)
  }

  function Xor(a: bv32, b: bv32): bv32 {
    a ^ b
  }

  /** One byte is mixed into the low end and shifted through. */
  function Mix(c: bv32, b: byte): bv32 {
    ShiftN(Xor(c, b as bv32), 8)
  }

  /** The register after all of `data`. */
  function Feed(c: bv32, data: seq<byte>): bv32 {
    FeedAll(Mix, c, data)
  }

  method Crc32Update(crc: bv32, buf: seq<byte>) returns (r: bv32)
    ensures r == Feed(crc, buf)
  {
    r := crc;
    for i := 0 to |buf|
      invariant Feed(r, buf[i..]) == Feed(crc, buf)
    {
      r := r ^ (buf[i] as bv32);
      ghost var mixed := r;
      for b := 0 to 8
        invariant ShiftN(r, 8 - b) == ShiftN(mixed, 8)
      {
        if r & 1 != 0 {
          r := (r >> 1) ^ POLY;
        } else {
          r := r >> 1;
        }
      }
      assert buf[i..][1..] == buf[i + 1..];
    }
  }

  /** Running the register over two blocks in turn equals running it over their concatenation. */
  lemma FeedConcat(c: bv32, a: seq<byte>, b: seq<byte>)
    ensures Feed(c, a + b) == Feed(Feed(c, a), b)
  {
    FeedAllConcat(Mix, c, a, b);
  }

  // ---------------------------------------------------------------------
  // The shift is linear over exclusive-or
  // ---------------------------------------------------------------------

  lemma ShiftEvenEven(x: bv32, y: bv32)
    requires x & 1 == 0 && y & 1 == 0
    ensures Shift(Xor(x, y)) == Xor(Shift(x), Shift(y))
  {}

  lemma ShiftEvenOdd(x: bv32, y: bv32)
    requires x & 1 == 0 && y & 1 != 0
    ensures Shift(Xor(x, y)) == Xor(Shift(x), Shift(y))
  {}

  lemma ShiftOddOdd(x: bv32, y: bv32)
    requires x & 1 != 0 && y & 1 != 0
    ensures Shift(Xor(x, y)) == Xor(Shift(x), Shift(y))
  {}

  lemma XorCommutes(a: bv32, b: bv32)
    ensures Xor(a, b) == Xor(b, a)
  {}

  lemma XorAssociates(a: bv32, b: bv32, c: bv32)
    ensures Xor(Xor(a, b), c) == Xor(a, Xor(b, c))
  {}

  lemma XorIsAbelian()
    ensures Abelian(Xor)
  {
    hide Xor;
    forall a, b ensures Xor(a, b) == Xor(b, a) {
      XorCommutes(a, b);
    }
    forall a, b, c ensures Xor(Xor(a, b), c) == Xor(a, Xor(b, c)) {
      XorAssociates(a, b, c);
    }
  }

  lemma ShiftLinear(x: bv32, y: bv32)
    ensures Shift(Xor(x, y)) == Xor(Shift(x), Shift(y))
  {
    hide *;
    if x & 1 == 0 {
      if y & 1 == 0 { ShiftEvenEven(x, y); } else { ShiftEvenOdd(x, y); }
    } else {
      if y & 1 == 0 {
        ShiftEvenOdd(y, x);
        XorCommutes(x, y);
        XorCommutes(Shift(x), Shift(y));
      } else {
        ShiftOddOdd(x, y);
      }
    }
  }

  // ---------------------------------------------------------------------
  // The same register, one message bit at a time
  // ---------------------------------------------------------------------

  function Bit(b: bool): bv32 {
    if b then 1 else 0
  }

  /** The register after one more message bit. */
  function BitStep(c: bv32, b: bool): bv32 {
    Shift(Xor(c, Bit(b)))
  }

  /** The `n` low-order bits of `w`, least significant first. */
  function LowBits(w: bv32, n: nat): (bits: seq<bool>)
    ensures |bits| == n
    decreases n
  {
    if n == 0 then [] else [w & 1 != 0] + LowBits(w >> 1, n - 1)
  }

  /** What is left of `w` once its `n` low-order bits have been shifted out. */
  function Drop(w: bv32, n: nat): bv32
    decreases n
  {
    if n == 0 then w else Drop(w >> 1, n - 1)
  }

  /** The eight bits of a byte, least significant first. */
  function ByteBits(b: byte): (bits: seq<bool>)
    ensures |bits| == 8
  {
    LowBits(b as bv32, 8)
  }

  /** All bits of a block, in the order the register takes them in. */
  function BitStream(data: seq<byte>): (bits: seq<bool>)
    ensures |bits| == 8 * |data|
  {
    Stream(ByteBits, data)
  }

  /** The bits of `w` above the lowest one leave a shift as `w >> 1`. */
  lemma Peel(c: bv32, w: bv32)
    ensures Shift(Xor(c, w)) == Xor(BitStep(c, w & 1 != 0), w >> 1)
  {
    hide Shift, Xor, Bit;
    if w & 1 == 0 {
      XorZero(c);
      PeelEven(c, w);
    } else {
      BitOne();
      PeelOdd(c, w);
    }
  }

  lemma BitOne()
    ensures Bit(true) == 1
  {}

  lemma XorZero(c: bv32)
    ensures Xor(c, Bit(false)) == c == Xor(c, 0)
  {}

  lemma PeelEven(c: bv32, w: bv32)
    requires w & 1 == 0
    ensures Shift(Xor(c, w)) == Xor(Shift(c), w >> 1)
  {
    hide *;
    ShiftLinear(c, w);
    ShiftOfClear(w);
  }

  lemma PeelOdd(c: bv32, w: bv32)
    requires w & 1 != 0
    ensures Shift(Xor(c, w)) == Xor(Shift(Xor(c, 1)), w >> 1)
  {
    hide *;
    XorCancels(c, w);
    ShiftLinear(Xor(c, 1), Xor(w, 1));
    ShiftOfCleared(w);
  }

  lemma XorCancels(c: bv32, w: bv32)
    ensures Xor(Xor(c, 1), Xor(w, 1)) == Xor(c, w)
  {}

  lemma ShiftOfClear(w: bv32)
    requires w & 1 == 0
    ensures Shift(w) == w >> 1
  {}

  lemma ShiftOfCleared(w: bv32)
    requires w & 1 != 0
    ensures Shift(Xor(w, 1)) == w >> 1
  {}

  /** Mixing a whole word in first and then shifting equals feeding its low bits one by one. */
  lemma {:induction false} ShiftNIsRun(c: bv32, w: bv32, n: nat)
    requires Drop(w, n) == 0
    ensures ShiftN(Xor(c, w), n) == Run(BitStep, c, LowBits(w, n))
    decreases n
  {
    hide Shift, Bit, Xor, BitStep;
    if n == 0 {
      XorZero(c);
    } else {
      assert LowBits(w, n)[1..] == LowBits(w >> 1, n - 1);
      Peel(c, w);
      ShiftNIsRun(BitStep(c, w & 1 != 0), w >> 1, n - 1);
    }
  }

  lemma ByteFits(b: byte)
    ensures Drop(b as bv32, 8) == 0
  {
    var w := b as bv32;
    assert w >> 1 >> 1 >> 1 >> 1 >> 1 >> 1 >> 1 >> 1 == 0;
    assert Drop(w, 8) == Drop(w >> 1 >> 1 >> 1 >> 1, 4);
  }

  lemma MixIsSerial()
    ensures Serial(Mix, BitStep, ByteBits)
  {
    hide ShiftN, LowBits, Xor, BitStep, Run, Drop;
    forall c, b ensures TakenSerially(Mix, BitStep, ByteBits, c, b) {
      ByteFits(b);
      ShiftNIsRun(c, b as bv32, 8);
    }
  }

  /** The byte-wise register of the source is the bit-serial register over the bit stream. */
  lemma FeedIsRun(c: bv32, data: seq<byte>)
    ensures Feed(c, data) == Run(BitStep, c, BitStream(data))
  {
    hide Serial;
    MixIsSerial();
    FeedAllIsRun(Mix, BitStep, ByteBits, c, data);
  }

  // ---------------------------------------------------------------------
  // The laws of a linear register
  // ---------------------------------------------------------------------

  lemma BitXor(x: bool, y: bool)
    ensures Bit(x != y) == Xor(Bit(x), Bit(y))
  {}

  lemma BitStepLinear(a: bv32, b: bv32, p: bool, q: bool)
    ensures BitStep(Xor(a, b), p != q) == Xor(BitStep(a, p), BitStep(b, q))
  {
    hide Shift, Bit, Xor;
    BitXor(p, q);
    XorIsAbelian();
    Regroup(Xor, a, b, Bit(p), Bit(q));
    ShiftLinear(Xor(a, Bit(p)), Xor(b, Bit(q)));
  }

  lemma XorTwice(a: bv32, b: bv32)
    ensures Xor(Xor(a, b), b) == a
  {}

  lemma XorWithZero(a: bv32)
    ensures Xor(0, a) == a && Xor(a, a) == 0
  {}

  lemma XorZeroIffEqual(a: bv32, b: bv32)
    ensures Xor(a, b) == 0 <==> a == b
  {
    hide Xor;
    XorTwice(a, b);
    XorWithZero(b);
  }

  lemma ZeroBitKeepsZeroness(c: bv32)
    ensures BitStep(c, false) == 0 <==> c == 0
  {}

  lemma IsLinear()
    ensures Linear(BitStep, Xor, 0)
  {
    hide BitStep, Xor;
    forall a, b, p, q ensures BitStep(Xor(a, b), p != q) == Xor(BitStep(a, p), BitStep(b, q)) {
      BitStepLinear(a, b, p, q);
    }
    forall a, b ensures Xor(a, b) == 0 <==> a == b {
      XorZeroIffEqual(a, b);
    }
    forall c ensures BitStep(c, false) == 0 <==> c == 0 {
      ZeroBitKeepsZeroness(c);
    }
  }

  // ---------------------------------------------------------------------
  // Every nonzero pattern of at most 32 bits is seen: n bits before a register
  // ends at zero it fits in n bits, because a shift that leaves the top bit clear
  // did not apply the polynomial.
  // ---------------------------------------------------------------------

  lemma MaskShifts(w: bv32, m: bv32)
    requires w & m == m
    ensures (w >> 1) & (m >> 1) == m >> 1
  {}

  lemma {:induction false} DropKeepsMask(w: bv32, m: bv32, n: nat)
    requires w & m == m
    ensures Drop(w, n) & Drop(m, n) == Drop(m, n)
    decreases n
  {
    if n > 0 {
      MaskShifts(w, m);
      DropKeepsMask(w >> 1, m >> 1, n - 1);
    }
  }

  lemma {:induction false} DropOfZero(n: nat)
    ensures Drop(0, n) == 0
  {
    if n > 0 { DropOfZero(n - 1); }
  }

  lemma {:induction false} DropAdds(w: bv32, a: nat, b: nat)
    ensures Drop(w, a + b) == Drop(Drop(w, a), b)
    decreases a
  {
    if a > 0 { DropAdds(w >> 1, a - 1, b); }
  }

  function TopAfter(n: nat): bv32 {
    if n == 0 then 0x8000_0000 else TopAfter(n - 1) >> 1
  }

  lemma {:induction false} DropOfTop(n: nat)
    ensures Drop(0x8000_0000, n) == TopAfter(n)
  {
    if n > 0 {
      DropOfTop(n - 1);
      DropAdds(0x8000_0000, n - 1, 1);
      assert Drop(TopAfter(n - 1), 1) == Drop(TopAfter(n - 1) >> 1, 0);
    }
  }

  lemma TopDropped()
    ensures Drop(0x8000_0000, 31) == 1
  {
    DropOfTop(31);
    assert TopAfter(8) == 0x80_0000;
    assert TopAfter(16) == 0x8000;
    assert TopAfter(24) == 0x80;
  }

  /** The top bit survives 31 shifts to the right. */
  lemma TopSurvives(w: bv32, n: nat)
    requires w & 0x8000_0000 == 0x8000_0000
    requires n <= 31
    ensures Drop(w, n) != 0
  {
    DropKeepsMask(w, 0x8000_0000, n);
    TopDropped();
    DropAdds(0x8000_0000, n, 31 - n);
    DropOfZero(31 - n);
  }

  lemma ShiftOfOddIsHigh(x: bv32)
    requires x & 1 != 0
    ensures Shift(x) & 0x8000_0000 == 0x8000_0000
  {}

  lemma LowBitGone(c: bv32, b: bool)
    ensures Xor(c, Bit(b)) >> 1 == c >> 1
  {}

  lemma BackOne(c: bv32, b: bool, n: nat)
    requires n <= 31
    requires Drop(BitStep(c, b), n) == 0
    ensures Drop(c, n + 1) == 0
  {
    hide Xor, Bit, Shift;
    var x := Xor(c, Bit(b));
    if x & 1 != 0 {
      ShiftOfOddIsHigh(x);
      TopSurvives(Shift(x), n);
    } else {
      ShiftOfClear(x);
      LowBitGone(c, b);
    }
  }

  lemma FirstOneIsHigh()
    ensures BitStep(0, true) & 0x8000_0000 == 0x8000_0000
  {}

  predicate Fits(c: bv32, n: nat) {
    Drop(c, n) == 0
  }

  lemma FirstOneFills(n: nat)
    requires n < 32
    ensures !Fits(BitStep(0, true), n)
  {
    hide BitStep;
    FirstOneIsHigh();
    TopSurvives(BitStep(0, true), n);
  }

  lemma SeesShortPatterns()
    ensures SeesPatterns(BitStep, 0, 32)
  {
    hide BitStep, Drop, SeesPatterns;
    ZeroBitKeepsZeroness(0);
    DropOfZero(0);
    forall c, b, n: nat | n < 32 ensures StepsBack(BitStep, Fits, c, b, n) {
      if Fits(BitStep(c, b), n) {
        BackOne(c, b, n);
      }
    }
    forall n: nat | n < 32 ensures !Fits(BitStep(0, true), n) {
      FirstOneFills(n);
    }
    BacktrackingSeesPatterns(BitStep, 0, Fits, 32);
  }

  // ---------------------------------------------------------------------
  // Distinct blocks have distinct bit streams
  // ---------------------------------------------------------------------

  function Join(bits: seq<bool>): bv32 {
    if bits == [] then 0 else Bit(bits[0]) | (Join(bits[1..]) << 1)
  }

  lemma Rejoin(w: bv32)
    ensures Bit(w & 1 != 0) | ((w >> 1) << 1) == w
  {}

  lemma {:induction false} JoinLowBits(w: bv32, n: nat)
    requires Drop(w, n) == 0
    ensures Join(LowBits(w, n)) == w
    decreases n
  {
    hide Bit;
    if n > 0 {
      assert LowBits(w, n)[1..] == LowBits(w >> 1, n - 1);
      JoinLowBits(w >> 1, n - 1);
      Rejoin(w);
    }
  }

  lemma SameWord(a: byte, b: byte)
    requires a as bv32 == b as bv32
    ensures a == b
  {}

  lemma ByteBitsInjective(a: byte, b: byte)
    requires ByteBits(a) == ByteBits(b)
    ensures a == b
  {
    hide LowBits, Drop, Join, Bit;
    ByteFits(a);
    ByteFits(b);
    JoinLowBits(a as bv32, 8);
    JoinLowBits(b as bv32, 8);
    SameWord(a, b);
  }

  lemma BitStreamInjective(x: seq<byte>, y: seq<byte>)
    requires |x| == |y| && BitStream(x) == BitStream(y)
    ensures x == y
  {
    hide ByteBits;
    forall a, b | ByteBits(a) == ByteBits(b) ensures a == b {
      ByteBitsInjective(a, b);
    }
    StreamInjective(ByteBits, x, y);
  }

  /**
   Burst detection: two different blocks of the same length that differ only
   inside 32 consecutive bits leave different registers, whatever the register
   started from.
   */
  lemma BurstDetected(c: bv32, x: seq<byte>, y: seq<byte>, from: nat)
    requires |x| == |y| && x != y
    requires DifferInWindow(BitStream(x), BitStream(y), from, 32)
    ensures Feed(c, x) != Feed(c, y)
  {
    hide *;
    if BitStream(x) == BitStream(y) {
      BitStreamInjective(x, y);
    }
    IsLinear();
    SeesShortPatterns();
    BurstSeen(BitStep, Xor, 0, 32, c, BitStream(x), BitStream(y), from);
    FeedIsRun(c, x);
    FeedIsRun(c, y);
  }

  // ---------------------------------------------------------------------
  // A known answer
  // ---------------------------------------------------------------------

  lemma FeedAt(c: bv32, data: seq<byte>, i: nat, mixed: bv32, next: bv32)
    requires i < |data| && Xor(c, data[i] as bv32) == mixed && ShiftN(mixed, 8) == next
    ensures Feed(c, data[i..]) == Feed(next, data[i + 1..])
  {
    hide ShiftN, Xor;
    assert data[i..][1..] == data[i + 1..];
  }

  lemma FirstDigits(digits: seq<byte>)
    requires digits == [0x31, 0x32, 0x33, 0x34, 0x35, 0x36, 0x37, 0x38, 0x39]
    ensures Feed(ONES, digits) == Feed(0x340A_C5E3, digits[5..])
  {
    hide Feed;
    assert digits[0..] == digits;
    FeedAt(0xFFFF_FFFF, digits, 0, 0xFFFF_FFCE, 0x7C23_1048);
    FeedAt(0x7C23_1048, digits, 1, 0x7C23_107A, 0xB0AC_BB32);
    FeedAt(0xB0AC_BB32, digits, 2, 0xB0AC_BB01, 0x77B7_9C2D);
    FeedAt(0x77B7_9C2D, digits, 3, 0x77B7_9C19, 0x641C_1F5C);
    FeedAt(0x641C_1F5C, digits, 4, 0x641C_1F69, 0x340A_C5E3);
  }

  /** The check value of the CRC that zlib and Ethernet use: the digits 1 to 9. */
  lemma CheckValue()
    ensures Xor(Feed(ONES, [0x31, 0x32, 0x33, 0x34, 0x35, 0x36, 0x37, 0x38, 0x39]), ONES) == 0xCBF4_3926
  {
    hide Feed;
    var digits: seq<byte> := [0x31, 0x32, 0x33, 0x34, 0x35, 0x36, 0x37, 0x38, 0x39];
    assert digits[9..] == [];
    FirstDigits(digits);
    FeedAt(0x340A_C5E3, digits, 5, 0x340A_C5D5, 0xF68D_2C9E);
    FeedAt(0xF68D_2C9E, digits, 6, 0xF68D_2CA9, 0xAFFC_9660);
    FeedAt(0xAFFC_9660, digits, 7, 0xAFFC_9658, 0x651F_2550);
    FeedAt(0x651F_2550, digits, 8, 0x651F_2569, 0x340B_C6D9);
    FeedNothing(0x340B_C6D9);
  }

  lemma FeedNothing(c: bv32)
    ensures Feed(c, []) == c
  {}
}
