/**
 Octets as bit vectors, for the code that shifts and masks them, and the octets
 of a text.
 */
module Bytes {
  import opened CText

  type byte = bv8

  function Doubled(high: byte, odd: bool): byte {
    (high << 1) | if odd then 1 else 0
  }

  /** The number with the `k` lowest bits of `n`. */
  function BinaryOf(n: nat, k: nat): byte {
    if k == 0 then 0 else Doubled(BinaryOf(n / 2, k - 1), n % 2 == 1)
  }

  /** A character as a bit vector. */
  function Octet(c: uchar): byte {
    BinaryOf(c as int, 8)
  }

  function PowerOf2(k: nat): nat {
    if k == 0 then 1 else 2 * PowerOf2(k - 1)
  }

  /** The bits from the `k`-th on. */
  function From(k: nat): byte {
    if k == 0 then 0xFF else From(k - 1) << 1
  }

  lemma NothingAbove(high: byte, odd: bool, mask: byte)
    requires high & mask == 0
    ensures Doubled(high, odd) & (mask << 1) == 0
  {}

  lemma {:induction false} NoHigherBits(n: nat, k: nat)
    ensures BinaryOf(n, k) & From(k) == 0
  {
    hide Doubled;
    if k > 0 {
      NoHigherBits(n / 2, k - 1);
      NothingAbove(BinaryOf(n / 2, k - 1), n % 2 == 1, From(k - 1));
    }
  }

  lemma TopBitFrom(k: nat)
    requires k < 8
    ensures From(k) & 0x80 == 0x80
  {
    assert From(1) == 0xFE && From(2) == 0xFC && From(3) == 0xF8;
    assert From(4) == 0xF0 && From(5) == 0xE0 && From(6) == 0xC0 && From(7) == 0x80;
  }

  lemma ClearIn(w: byte, mask: byte)
    requires w & mask == 0 && mask & 0x80 == 0x80
    ensures w & 0x80 == 0
  {}

  lemma DoubledInjective(x: byte, y: byte, p: bool, q: bool)
    requires x & 0x80 == 0 && y & 0x80 == 0 && Doubled(x, p) == Doubled(y, q)
    ensures x == y && p == q
  {}

  lemma {:induction false} BinaryInjective(n: nat, m: nat, k: nat)
    requires k <= 8 && n < PowerOf2(k) && m < PowerOf2(k) && BinaryOf(n, k) == BinaryOf(m, k)
    ensures n == m
  {
    hide Doubled, From;
    if k > 0 {
      TopBitFrom(k - 1);
      NoHigherBits(n / 2, k - 1);
      NoHigherBits(m / 2, k - 1);
      ClearIn(BinaryOf(n / 2, k - 1), From(k - 1));
      ClearIn(BinaryOf(m / 2, k - 1), From(k - 1));
      DoubledInjective(BinaryOf(n / 2, k - 1), BinaryOf(m / 2, k - 1), n % 2 == 1, m % 2 == 1);
      BinaryInjective(n / 2, m / 2, k - 1);
    }
  }

  lemma OctetInjective(c: uchar, d: uchar)
    requires Octet(c) == Octet(d)
    ensures c == d
  {
    hide BinaryOf;
    assert PowerOf2(8) == 16 * PowerOf2(4) == 256;
    BinaryInjective(c as int, d as int, 8);
  }

  function Octets(t: text): (b: seq<byte>)
    ensures |b| == |t| && forall i :: 0 <= i < |t| ==> b[i] == Octet(t[i])
  {
    seq(|t|, i requires 0 <= i < |t| => Octet(t[i]))
  }

  lemma OctetsInjective(s: text, t: text)
    requires Octets(s) == Octets(t)
    ensures s == t
  {
    hide Octet;
    assert |Octets(s)| == |Octets(t)|;
    forall i | 0 <= i < |s| ensures s[i] == t[i] {
      assert Octets(s)[i] == Octets(t)[i];
      OctetInjective(s[i], t[i]);
    }
  }
}
