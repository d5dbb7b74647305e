/**
 A checksum register seen as a machine that takes in one message bit at a time,
 and what any linear register of this kind detects. CRC-32 and CRC-8 are the
 two instances.
 */
module BitRegister {

  function Run<R>(step: (R, bool) -> R, c: R, bits: seq<bool>): R
    decreases bits
  {
    if bits == [] then c else Run(step, step(c, bits[0]), bits[1..])
  }

  lemma {:induction false} RunConcat<R>(step: (R, bool) -> R, c: R, a: seq<bool>, b: seq<bool>)
    ensures Run(step, c, a + b) == Run(step, Run(step, c, a), b)
    decreases a
  {
    if a == [] {
      assert a + b == b;
    } else {
      assert (a + b)[1..] == a[1..] + b;
      RunConcat(step, step(c, a[0]), a[1..], b);
    }
  }

  ghost predicate AllFalse(bits: seq<bool>) {
    forall i :: 0 <= i < |bits| ==> !bits[i]
  }

  /** The bits in which two messages of the same length differ. */
  function XorBits(x: seq<bool>, y: seq<bool>): (d: seq<bool>)
    requires |x| == |y|
    ensures |d| == |x|
    ensures forall i :: 0 <= i < |x| ==> d[i] == (x[i] != y[i])
  {
    if x == [] then [] else [x[0] != y[0]] + XorBits(x[1..], y[1..])
  }

  /** `x` and `y` agree on every bit outside `width` consecutive bits. */
  ghost predicate DifferInWindow(x: seq<bool>, y: seq<bool>, from: nat, width: nat)
    requires |x| == |y|
  {
    forall i :: 0 <= i < |x| && !(from <= i < from + width) ==> x[i] == y[i]
  }

  /**
   The laws of a linear register: exclusive-or of states and of input bits
   passes through a step, and a run of zero bits maps zero, and only zero, to
   zero.
   */
  ghost predicate Linear<R(!new)>(step: (R, bool) -> R, xor: (R, R) -> R, zero: R) {
    && (forall a, b, p, q :: step(xor(a, b), p != q) == xor(step(a, p), step(b, q)))
    && (forall a, b :: xor(a, b) == zero <==> a == b)
    && (forall c :: step(c, false) == zero <==> c == zero)
  }

  /** No pattern of at most `width` bits other than all zeros goes unnoticed. */
  ghost predicate SeesPatterns<R(!new)>(step: (R, bool) -> R, zero: R, width: nat) {
    forall bits: seq<bool> :: |bits| <= width && !AllFalse(bits) ==> Run(step, zero, bits) != zero
  }

  /** Two runs differ by what the difference of their inputs alone would produce. */
  lemma {:induction false} RunDifference<R(!new)>(
      step: (R, bool) -> R, xor: (R, R) -> R, zero: R, a: R, b: R, x: seq<bool>, y: seq<bool>)
    requires Linear(step, xor, zero)
    requires |x| == |y|
    ensures xor(Run(step, a, x), Run(step, b, y)) == Run(step, xor(a, b), XorBits(x, y))
    decreases x
  {
    if x != [] {
      assert XorBits(x, y)[1..] == XorBits(x[1..], y[1..]);
      assert step(xor(a, b), x[0] != y[0]) == xor(step(a, x[0]), step(b, y[0]));
      RunDifference(step, xor, zero, step(a, x[0]), step(b, y[0]), x[1..], y[1..]);
    }
  }

  lemma {:induction false} ZerosKeepZeroness<R(!new)>(
      step: (R, bool) -> R, xor: (R, R) -> R, zero: R, c: R, bits: seq<bool>)
    requires Linear(step, xor, zero)
    requires AllFalse(bits)
    ensures Run(step, c, bits) == zero <==> c == zero
    decreases bits
  {
    if bits != [] {
      assert !bits[0];
      ZerosKeepZeroness(step, xor, zero, step(c, false), bits[1..]);
    }
  }

  lemma SplitTwice(d: seq<bool>, i: nat, j: nat)
    requires i <= j <= |d|
    ensures d == d[0..i] + (d[i..j] + d[j..|d|])
  {
    assert d[i..] == d[i..j] + d[j..|d|];
    assert d == d[0..i] + d[i..];
  }

  lemma FalseSlice(d: seq<bool>, i: nat, j: nat)
    requires i <= j <= |d|
    requires forall k :: i <= k < j ==> !d[k]
    ensures AllFalse(d[i..j])
  {}

  lemma SetSlice(d: seq<bool>, i: nat, j: nat, k: nat)
    requires i <= k < j <= |d| && d[k]
    ensures !AllFalse(d[i..j])
  {
    assert d[i..j][k - i];
  }

  lemma PaddedPatternIsSeen<R(!new)>(
      step: (R, bool) -> R, xor: (R, R) -> R, zero: R, a: seq<bool>, b: seq<bool>, c: seq<bool>)
    requires Linear(step, xor, zero)
    requires AllFalse(a) && AllFalse(c)
    requires Run(step, zero, b) != zero
    ensures Run(step, zero, a + (b + c)) != zero
  {
    RunConcat(step, zero, a, b + c);
    ZerosKeepZeroness(step, xor, zero, zero, a);
    RunConcat(step, zero, b, c);
    ZerosKeepZeroness(step, xor, zero, Run(step, zero, b), c);
  }

  /**
   Burst detection: two different messages that differ only inside `width`
   consecutive bits leave different registers, whatever the start value.
   */
  lemma BurstSeen<R(!new)>(step: (R, bool) -> R, xor: (R, R) -> R, zero: R, width: nat,
                           c: R, x: seq<bool>, y: seq<bool>, from: nat)
    requires Linear(step, xor, zero) && SeesPatterns(step, zero, width)
    requires |x| == |y| && x != y
    requires DifferInWindow(x, y, from, width)
    ensures Run(step, c, x) != Run(step, c, y)
  {
    var d := XorBits(x, y);
    var k :| 0 <= k < |x| && x[k] != y[k];
    var end := if from + width <= |d| then from + width else |d|;
    FalseSlice(d, 0, from);
    SetSlice(d, from, end, k);
    FalseSlice(d, end, |d|);
    PaddedPatternIsSeen(step, xor, zero, d[0..from], d[from..end], d[end..|d|]);
    SplitTwice(d, from, end);
    RunDifference(step, xor, zero, c, c, x, y);
  }

  /** How many bits are set. */
  function Ones(bits: seq<bool>): nat {
    if bits == [] then 0 else (if bits[0] then 1 else 0) + Ones(bits[1..])
  }

  /** `parity` is flipped by exactly the input bits that are set. */
  ghost predicate TracksParity<R(!new)>(step: (R, bool) -> R, parity: R -> bool) {
    forall c, b :: parity(step(c, b)) == (parity(c) != b)
  }

  lemma {:induction false} RunParity<R(!new)>(step: (R, bool) -> R, parity: R -> bool, c: R, bits: seq<bool>)
    requires TracksParity(step, parity)
    ensures parity(Run(step, c, bits)) == (parity(c) != (Ones(bits) % 2 == 1))
    decreases bits
  {
    if bits != [] {
      assert parity(step(c, bits[0])) == (parity(c) != bits[0]);
      RunParity(step, parity, step(c, bits[0]), bits[1..]);
    }
  }

  lemma {:induction false} OnesOfDifference(x: seq<bool>, y: seq<bool>)
    requires |x| == |y|
    ensures (Ones(XorBits(x, y)) % 2 == 1) == ((Ones(x) % 2 == 1) != (Ones(y) % 2 == 1))
  {
    if x != [] {
      assert XorBits(x, y)[1..] == XorBits(x[1..], y[1..]);
      OnesOfDifference(x[1..], y[1..]);
    }
  }

  /** A register that tracks parity sees every odd number of flipped bits. */
  lemma OddErrorSeen<R(!new)>(step: (R, bool) -> R, parity: R -> bool, c: R, x: seq<bool>, y: seq<bool>)
    requires TracksParity(step, parity)
    requires |x| == |y| && Ones(XorBits(x, y)) % 2 == 1
    ensures Run(step, c, x) != Run(step, c, y)
  {
    OnesOfDifference(x, y);
    RunParity(step, parity, c, x);
    RunParity(step, parity, c, y);
  }

  // ---------------------------------------------------------------------
  // Short patterns
  // ---------------------------------------------------------------------

  /** One message bit earlier, the register fitted in one more bit. */
  ghost predicate StepsBack<R(!new)>(step: (R, bool) -> R, fits: (R, nat) -> bool, c: R, b: bool, n: nat) {
    fits(step(c, b), n) ==> fits(c, n + 1)
  }

  /**
   `fits(c, n)`: the register fits in `n` bits. Walking backwards from a
   register that ended at zero, one more bit of room is needed for each message
   bit; but a first bit that is set fills the register beyond that.
   */
  ghost predicate Backtracks<R(!new)>(step: (R, bool) -> R, zero: R, fits: (R, nat) -> bool, width: nat) {
    && fits(zero, 0) && step(zero, false) == zero
    && (forall c, b, n: nat :: n < width ==> StepsBack(step, fits, c, b, n))
    && (forall n: nat :: n < width ==> !fits(step(zero, true), n))
  }

  lemma {:induction false} BackFromZero<R(!new)>(
      step: (R, bool) -> R, zero: R, fits: (R, nat) -> bool, width: nat, c: R, bits: seq<bool>)
    requires Backtracks(step, zero, fits, width)
    requires |bits| <= width && Run(step, c, bits) == zero
    ensures fits(c, |bits|)
    decreases bits
  {
    if bits != [] {
      var n := |bits| - 1;
      BackFromZero(step, zero, fits, width, step(c, bits[0]), bits[1..]);
      assert StepsBack(step, fits, c, bits[0], n);
    }
  }

  lemma {:induction false} ShortPatternIsSeen<R(!new)>(
      step: (R, bool) -> R, zero: R, fits: (R, nat) -> bool, width: nat, bits: seq<bool>)
    requires Backtracks(step, zero, fits, width)
    requires |bits| <= width && !AllFalse(bits)
    ensures Run(step, zero, bits) != zero
    decreases bits
  {
    if bits[0] {
      if Run(step, step(zero, true), bits[1..]) == zero {
        BackFromZero(step, zero, fits, width, step(zero, true), bits[1..]);
      }
    } else {
      assert bits == [bits[0]] + bits[1..];
      ShortPatternIsSeen(step, zero, fits, width, bits[1..]);
    }
  }

  /** A register that backtracks sees every pattern of at most its width. */
  lemma BacktrackingSeesPatterns<R(!new)>(step: (R, bool) -> R, zero: R, fits: (R, nat) -> bool, width: nat)
    requires Backtracks(step, zero, fits, width)
    ensures SeesPatterns(step, zero, width)
  {
    hide Run, AllFalse, Backtracks;
    forall bits: seq<bool> | |bits| <= width && !AllFalse(bits) ensures Run(step, zero, bits) != zero {
      ShortPatternIsSeen(step, zero, fits, width, bits);
    }
  }

  // ---------------------------------------------------------------------
  // Registers that take in whole bytes
  // ---------------------------------------------------------------------

  /** The register after all of `data`, one byte at a time. */
  function FeedAll<R>(mix: (R, bv8) -> R, c: R, data: seq<bv8>): R
    decreases data
  {
    if data == [] then c else FeedAll(mix, mix(c, data[0]), data[1..])
  }

  /** Feeding two blocks in turn equals feeding their concatenation. */
  lemma {:induction false} FeedAllConcat<R>(mix: (R, bv8) -> R, c: R, a: seq<bv8>, b: seq<bv8>)
    ensures FeedAll(mix, c, a + b) == FeedAll(mix, FeedAll(mix, c, a), b)
    decreases a
  {
    if a == [] {
      assert a + b == b;
    } else {
      assert (a + b)[1..] == a[1..] + b;
      assert (a + b)[0] == a[0];
      FeedAllConcat(mix, mix(c, a[0]), a[1..], b);
    }
  }

  /** All bits of a block, each byte's in the order `bits` gives them. */
  function Stream(bits: bv8 -> seq<bool>, data: seq<bv8>): (all: seq<bool>)
    requires forall b :: |bits(b)| == 8
    ensures |all| == 8 * |data|
  {
    if data == [] then [] else bits(data[0]) + Stream(bits, data[1..])
  }

  /** Taking in a byte is taking in its bits one after the other. */
  ghost predicate TakenSerially<R(!new)>(mix: (R, bv8) -> R, step: (R, bool) -> R, bits: bv8 -> seq<bool>, c: R,
                                  b: bv8) {
    mix(c, b) == Run(step, c, bits(b))
  }

  ghost predicate Serial<R(!new)>(mix: (R, bv8) -> R, step: (R, bool) -> R, bits: bv8 -> seq<bool>) {
    && (forall b :: |bits(b)| == 8)
    && forall c, b :: TakenSerially(mix, step, bits, c, b)
  }

  lemma {:induction false} FeedAllIsRun<R(!new)>(
      mix: (R, bv8) -> R, step: (R, bool) -> R, bits: bv8 -> seq<bool>, c: R, data: seq<bv8>)
    requires Serial(mix, step, bits)
    ensures FeedAll(mix, c, data) == Run(step, c, Stream(bits, data))
    decreases data
  {
    if data != [] {
      assert TakenSerially(mix, step, bits, c, data[0]);
      RunConcat(step, c, bits(data[0]), Stream(bits, data[1..]));
      FeedAllIsRun(mix, step, bits, mix(c, data[0]), data[1..]);
    }
  }

  ghost predicate Distinguishes(bits: bv8 -> seq<bool>) {
    (forall b :: |bits(b)| == 8) && forall a, b :: bits(a) == bits(b) ==> a == b
  }

  /** Where bytes have distinct bits, blocks have distinct bit streams. */
  lemma {:induction false} StreamInjective(bits: bv8 -> seq<bool>, x: seq<bv8>, y: seq<bv8>)
    requires Distinguishes(bits)
    requires |x| == |y| && Stream(bits, x) == Stream(bits, y)
    ensures x == y
    decreases x
  {
    if x != [] {
      var s, t := Stream(bits, x), Stream(bits, y);
      assert bits(x[0]) == s[..8] == t[..8] == bits(y[0]);
      assert Stream(bits, x[1..]) == s[8..] == t[8..] == Stream(bits, y[1..]);
      assert x[0] == y[0];
      StreamInjective(bits, x[1..], y[1..]);
    }
  }

  // ---------------------------------------------------------------------
  // Linear steps
  // ---------------------------------------------------------------------

  ghost predicate Abelian<R(!new)>(xor: (R, R) -> R) {
    && (forall a, b :: xor(a, b) == xor(b, a))
    && (forall a, b, c :: xor(xor(a, b), c) == xor(a, xor(b, c)))
  }

  lemma Regroup<R(!new)>(xor: (R, R) -> R, a: R, b: R, p: R, q: R)
    requires Abelian(xor)
    ensures xor(xor(a, b), xor(p, q)) == xor(xor(a, p), xor(b, q))
  {
    calc {
      xor(xor(a, b), xor(p, q));
      xor(a, xor(b, xor(p, q)));
      xor(a, xor(xor(b, p), q));
      xor(a, xor(xor(p, b), q));
      xor(a, xor(p, xor(b, q)));
      xor(xor(a, p), xor(b, q));
    }
  }
}
