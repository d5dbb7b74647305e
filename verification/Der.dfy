/**
 The conversion of a raw ECDSA signature R||S to DER (components/dsp_jwt/dsp_jwt.c,
 rs_to_der), and an ASN.1 reader that gets the two integers back
 (section 3.4 of RFC 7518, section 8.3 of X.690).
 */
module Der {
  import opened CText

  const SEQUENCE: uchar := 0x30
  const INTEGER: uchar := 0x02

  // ---------------------------------------------------------------------
  // Big-endian integers
  // ---------------------------------------------------------------------

  function Pow2(n: nat): (p: nat)
    ensures p > 0
  {
    if n == 0 then 1 else 2 * Pow2(n - 1)
  }

  /** The unsigned big-endian integer held by some octets. */
  function Unsigned(b: text): nat {
    if b == [] then 0 else Unsigned(b[..|b| - 1]) * 256 + b[|b| - 1] as nat
  }

  /** The two's complement big-endian integer held by some octets, as INTEGER contents are read. */
  function Signed(b: text): int {
    if b != [] && b[0] >= 0x80 then Unsigned(b) - Pow2(8 * |b|) else Unsigned(b)
  }

  /** The shortest contents: the first nine bits are neither all zero nor all one. */
  predicate Minimal(b: text) {
    && |b| > 0
    && (|b| > 1 ==> !(b[0] == 0x00 && b[1] < 0x80) && !(b[0] == 0xFF && b[1] >= 0x80))
  }

  lemma Pow2Octet(n: nat)
    ensures Pow2(8 * (n + 1)) == 256 * Pow2(8 * n)
  {
    var m := 8 * n;
    assert Pow2(m + 8) == 2 * Pow2(m + 7) && Pow2(m + 7) == 2 * Pow2(m + 6) && Pow2(m + 6) == 2 * Pow2(m + 5);
    assert Pow2(m + 5) == 2 * Pow2(m + 4) && Pow2(m + 4) == 2 * Pow2(m + 3) && Pow2(m + 3) == 2 * Pow2(m + 2);
    assert Pow2(m + 2) == 2 * Pow2(m + 1) && Pow2(m + 1) == 2 * Pow2(m);
  }

  /** The first octet weighs most. */
  lemma {:induction false} UnsignedFirst(b: text)
    requires b != []
    ensures Unsigned(b) == b[0] as nat * Pow2(8 * (|b| - 1)) + Unsigned(b[1..])
  {
    var n := |b| - 1;
    if n > 0 {
      var front, tail := b[..n], b[1..];
      UnsignedFirst(front);
      assert front[1..] == tail[..n - 1];
      Pow2Octet(n - 1);
      Shifted(b[0] as nat, Pow2(8 * (n - 1)));
      assert Unsigned(tail) == Unsigned(tail[..n - 1]) * 256 + b[n] as nat;
    } else {
      assert b[..n] == [] && b[1..] == [];
    }
  }

  lemma Shifted(x: nat, p: nat)
    ensures x * p * 256 == x * (256 * p)
  {}

  lemma {:induction false} UnsignedBound(b: text)
    ensures Unsigned(b) < Pow2(8 * |b|)
  {
    if b != [] {
      UnsignedBound(b[..|b| - 1]);
      Pow2Octet(|b| - 1);
    }
  }

  /** The value of 32 octets reaches 2 to the power 247 exactly when one of the top nine bits is set. */
  lemma LargeIffTopBits(b: text)
    requires |b| == 32
    ensures Unsigned(b) >= Pow2(247) <==> b[0] > 0 || b[1] >= 0x80
  {
    hide Unsigned, Pow2;
    var rest := b[2..];
    UnsignedFirst(b);
    UnsignedFirst(b[1..]);
    assert b[1..][1..] == rest;
    UnsignedBound(rest);
    Pow2Octet(30);
    HalfOctet();
    TopWeight(b[0] as nat, b[1] as nat, Pow2(240), Unsigned(rest));
  }

  lemma TopWeight(x: nat, y: nat, p: nat, rest: nat)
    requires rest < p
    ensures x * (256 * p) + (y * p + rest) >= 128 * p <==> x > 0 || y >= 128
  {
    Shifted(x, p);
    if x > 0 {
      Monotone(1, x, 256 * p);
      Monotone(0, y, p);
    } else if y >= 128 {
      Monotone(128, y, p);
    } else {
      Monotone(y, 127, p);
    }
  }

  lemma Monotone(x: nat, y: nat, p: nat)
    requires x <= y
    ensures x * p <= y * p
  {}

  lemma HalfOctet()
    ensures Pow2(247) == 128 * Pow2(240)
  {
    assert Pow2(247) == 2 * Pow2(246) && Pow2(246) == 2 * Pow2(245) && Pow2(245) == 2 * Pow2(244);
    assert Pow2(244) == 2 * Pow2(243) && Pow2(243) == 2 * Pow2(242) && Pow2(242) == 2 * Pow2(241);
  }

  // ---------------------------------------------------------------------
  // Writing
  // ---------------------------------------------------------------------

  /** The contents written for a 32-octet number: a zero octet in front if the top bit is set. */
  function Contents(n: text): text
    requires |n| == 32
  {
    if n[0] >= 0x80 then [0x00] + n else n
  }

  function DerInteger(n: text): text
    requires |n| == 32
  {
    [INTEGER, |Contents(n)| as uchar] + Contents(n)
  }

  function Signature(rs: text): text
    requires |rs| == 64
  {
    var body := DerInteger(rs[..32]) + DerInteger(rs[32..]);
    [SEQUENCE, |body| as uchar] + body
  }

  method Copy(dst: array<uchar>, at: nat, src: text)
    requires at + |src| <= dst.Length
    modifies dst
    ensures dst[..at + |src|] == old(dst[..at]) + src
  {
    var i := 0;
    while i < |src|
      invariant 0 <= i <= |src|
      invariant dst[..at + i] == old(dst[..at]) + src[..i]
    {
      dst[at + i] := src[i];
      i := i + 1;
    }
    assert src[..i] == src;
  }

  function Header(n: text): text
    requires |n| == 32
  {
    if n[0] >= 0x80 then [INTEGER, 33, 0x00] else [INTEGER, 32]
  }

  method PutHeader(n: text, der: array<uchar>, at: nat) returns (p: nat)
    requires |n| == 32 && at + 3 <= der.Length
    modifies der
    ensures p == at + |Header(n)|
    ensures der[..p] == old(der[..at]) + Header(n)
  {
    var pad := if n[0] >= 0x80 then 1 else 0;
    p := at;
    der[p] := INTEGER;
    p := p + 1;
    der[p] := (32 + pad) as uchar;
    p := p + 1;
    if pad == 1 {
      der[p] := 0x00;
      p := p + 1;
    }
  }

  method PutInteger(n: text, der: array<uchar>, at: nat) returns (p: nat)
    requires |n| == 32 && at + 35 <= der.Length
    modifies der
    ensures p == at + |DerInteger(n)|
    ensures der[..p] == old(der[..at]) + DerInteger(n)
  {
    p := PutHeader(n, der, at);
    assert DerInteger(n) == Header(n) + n;
    Join(old(der[..at]), Header(n), n);
    Copy(der, p, n);
    p := p + 32;
  }

  lemma Join(a: text, b: text, c: text)
    ensures a + b + c == a + (b + c)
  {}

  lemma IntegerSize(n: text)
    requires |n| == 32
    ensures |DerInteger(n)| == if n[0] >= 0x80 then 35 else 34
  {}

  /** The length check that would make it fail never fires; the caller's buffer has 74 cells. */
  method RsToDer(rs: text, der: array<uchar>) returns (derLen: nat)
    requires |rs| == 64 && der.Length >= 74
    modifies der
    ensures derLen == |Signature(rs)|
    ensures der[..derLen] == Signature(rs)
  {
    hide DerInteger;
    IntegerSize(rs[..32]);
    IntegerSize(rs[32..]);
    var rPad := if rs[0] >= 0x80 then 1 else 0;
    var sPad := if rs[32] >= 0x80 then 1 else 0;
    var rLen, sLen := 32 + rPad, 32 + sPad;
    var seqLen := 2 + rLen + 2 + sLen;
    assert seqLen + 2 <= 74;
    der[0] := SEQUENCE;
    der[1] := seqLen as uchar;
    assert der[..2] == [SEQUENCE, seqLen as uchar];
    var p := PutInteger(rs[..32], der, 2);
    p := PutInteger(rs[32..], der, p);
    Join([SEQUENCE, seqLen as uchar], DerInteger(rs[..32]), DerInteger(rs[32..]));
    return p;
  }

  // ---------------------------------------------------------------------
  // Reading
  // ---------------------------------------------------------------------

  datatype Element = Element(contents: text, rest: text)

  /** One definite short-form element of the given tag, and what follows it. */
  function ReadElement(b: text, tag: uchar): Option<Element> {
    if |b| >= 2 && b[0] == tag && b[1] < 0x80 && 2 + b[1] as nat <= |b| then
      Some(Element(b[2..2 + b[1] as nat], b[2 + b[1] as nat..]))
    else None
  }

  datatype Parts = Parts(r: int, s: int, rContents: text, sContents: text)

  /** A SEQUENCE of two INTEGERs, with nothing left over inside or behind it. */
  function ReadSignature(b: text): Option<Parts> {
    match ReadElement(b, SEQUENCE)
    case None => None
    case Some(outer) =>
      match ReadElement(outer.contents, INTEGER)
      case None => None
      case Some(r) =>
        match ReadElement(r.rest, INTEGER)
        case None => None
        case Some(s) =>
          if outer.rest != [] || s.rest != [] || r.contents == [] || s.contents == [] then None
          else Some(Parts(Signed(r.contents), Signed(s.contents), r.contents, s.contents))
  }

  lemma ElementRead(tag: uchar, contents: text, rest: text)
    requires |contents| < 0x80
    ensures ReadElement([tag, |contents| as uchar] + contents + rest, tag) == Some(Element(contents, rest))
  {}

  /** The form starts with the tag of a SEQUENCE and the number of octets behind, then the tag of an INTEGER. */
  lemma SignatureStarts(rs: text)
    requires |rs| == 64
    ensures Signature(rs)[0] == 0x30 && Signature(rs)[1] as int == |Signature(rs)| - 2 && Signature(rs)[2] == 0x02
    ensures Signature(rs)[|Signature(rs)| - 32..] == rs[32..]
  {
    var s := rs[32..];
    assert DerInteger(s) == DerInteger(s)[..|DerInteger(s)| - 32] + s;
    assert Signature(rs)[|Signature(rs)| - 32..] == s;
  }

  /** Known integers. */
  lemma KnownIntegers()
    ensures Unsigned([1, 2]) == 0x102 && Signed([0x7F]) == 127 && Signed([0x80]) == -128 && Signed([0, 0x80]) == 128
  {
    assert [1, 2][..1] == [1] && [0, 0x80][..1] == [0];
    assert Pow2(8) == 2 * Pow2(7) && Pow2(7) == 2 * Pow2(6) && Pow2(6) == 2 * Pow2(5) && Pow2(5) == 2 * Pow2(4);
  }

  /** The padded contents are never read as a negative number, and are minimal exactly for large values. */
  lemma ContentsRead(n: text)
    requires |n| == 32
    ensures Signed(Contents(n)) == Unsigned(n)
    ensures Minimal(Contents(n)) <==> Unsigned(n) >= Pow2(247)
  {
    hide Unsigned, Pow2;
    LargeIffTopBits(n);
    if n[0] >= 0x80 {
      UnsignedFirst(Contents(n));
      assert Contents(n)[1..] == n;
    }
  }

  /**
   For every R||S, a reader of the DER form recovers exactly the two
   non-negative integers, every length octet matches, and the whole is 70 to 72
   octets long. An INTEGER is minimal exactly when its value is at least 2 to
   the power 247: shorter values keep leading zero octets.
   */
  lemma SignatureRead(rs: text)
    requires |rs| == 64
    ensures 70 <= |Signature(rs)| <= 72
    ensures ReadSignature(Signature(rs)) ==
            Some(Parts(Unsigned(rs[..32]), Unsigned(rs[32..]), Contents(rs[..32]), Contents(rs[32..])))
    ensures Minimal(Contents(rs[..32])) <==> Unsigned(rs[..32]) >= Pow2(247)
    ensures Minimal(Contents(rs[32..])) <==> Unsigned(rs[32..]) >= Pow2(247)
  {
    hide Unsigned, Pow2, Signed, Minimal, ReadElement;
    var r, s := rs[..32], rs[32..];
    ContentsRead(r);
    ContentsRead(s);
    var body := DerInteger(r) + DerInteger(s);
    assert Signature(rs) == [SEQUENCE, |body| as uchar] + body + [];
    ElementRead(SEQUENCE, body, []);
    ElementRead(INTEGER, Contents(r), DerInteger(s));
    assert DerInteger(s) == [INTEGER, |Contents(s)| as uchar] + Contents(s) + [];
    ElementRead(INTEGER, Contents(s), []);
  }
}
