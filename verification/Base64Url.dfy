/**
 Unpadded base64url (components/dsp_jwt/dsp_jwt.c, b64url_char_to_val and
 dsp_jwt_base64url_decode; section 5 of RFC 4648).
 */
module Base64Url {
  import opened CText
  import opened Bytes

  /** The six-bit value of a character, if it belongs to the alphabet. */
  function CharToVal(c: byte): Option<byte> {
    if 0x41 <= c && c <= 0x5A then Some(c - 0x41)
    else if 0x61 <= c && c <= 0x7A then Some(c - 0x61 + 26)
    else if 0x30 <= c && c <= 0x39 then Some(c - 0x30 + 52)
    else if c == 0x2D then Some(62)
    else if c == 0x5F then Some(63)
    else None
  }

  /** The character at position `v` of the alphabet: A-Z, a-z, 0-9, minus and underscore. */
  function ValToChar(v: byte): byte
    requires v < 64
  {
    if v < 26 then 0x41 + v
    else if v < 52 then 0x61 + (v - 26)
    else if v < 62 then 0x30 + (v - 52)
    else if v == 62 then 0x2D
    else 0x5F
  }

  /** The two tables are inverse, so the alphabet is exactly the range of `ValToChar`. */
  lemma ValOfChar(v: byte)
    requires v < 64
    ensures CharToVal(ValToChar(v)) == Some(v)
  {}

  lemma CharOfVal(c: byte)
    requires CharToVal(c).Some?
    ensures CharToVal(c).value < 64 && ValToChar(CharToVal(c).value) == c
  {}

  /** The alphabet runs from A to Z, from a to z and from 0 to 9, then come minus and underscore. */
  lemma Alphabet(v: byte)
    ensures ValToChar(0) == 0x41 && ValToChar(25) == 0x5A && ValToChar(26) == 0x61 && ValToChar(51) == 0x7A
    ensures ValToChar(52) == 0x30 && ValToChar(61) == 0x39 && ValToChar(62) == 0x2D && ValToChar(63) == 0x5F
    ensures v < 61 && v != 25 && v != 51 ==> ValToChar(v + 1) == ValToChar(v) + 1
  {}

  predicate InAlphabet(s: seq<byte>) {
    forall i :: 0 <= i < |s| ==> CharToVal(s[i]).Some?
  }

  function Val(c: byte): (v: byte)
    requires CharToVal(c).Some?
    ensures v < 64
  {
    CharToVal(c).value
  }

  // ---------------------------------------------------------------------
  // Octets of a group of characters
  // ---------------------------------------------------------------------

  function First(v0: byte, v1: byte): byte {
    (v0 << 2) | (v1 >> 4)
  }

  function Second(v1: byte, v2: byte): byte {
    (v1 << 4) | (v2 >> 2)
  }

  function Third(v2: byte, v3: byte): byte {
    (v2 << 6) | v3
  }

  /** A text that decodes: alphabet characters only, and no single character left over. */
  predicate WellFormed(s: seq<byte>) {
    InAlphabet(s) && |s| % 4 != 1
  }

  /** The octets a text of whole six-bit values stands for; bits that fill no octet are dropped. */
  function Decoded(s: seq<byte>): seq<byte>
    requires WellFormed(s)
  {
    if s == [] then []
    else if |s| == 2 then [First(Val(s[0]), Val(s[1]))]
    else if |s| == 3 then [First(Val(s[0]), Val(s[1])), Second(Val(s[1]), Val(s[2]))]
    else [First(Val(s[0]), Val(s[1])), Second(Val(s[1]), Val(s[2])), Third(Val(s[2]), Val(s[3]))] + Decoded(s[4..])
  }

  lemma AlphabetConcat(s: seq<byte>, k: nat)
    requires k <= |s|
    ensures InAlphabet(s) <==> InAlphabet(s[..k]) && InAlphabet(s[k..])
  {
    hide CharToVal;
    forall i | 0 <= i < |s| ensures s[i] == if i < k then s[..k][i] else s[k..][i - k] {}
  }

  lemma SameRemainder(n: nat)
    requires n >= 4
    ensures n % 4 == (n - 4) % 4
  {}

  lemma GroupDecoded(s: seq<byte>)
    requires |s| > 3
    ensures WellFormed(s) <==> InAlphabet(s[..4]) && WellFormed(s[4..])
    ensures WellFormed(s) ==> Decoded(s) == Decoded(s[..4]) + Decoded(s[4..])
  {
    hide Decoded, InAlphabet, CharToVal;
    var group, rest := s[..4], s[4..];
    AlphabetConcat(s, 4);
    SameRemainder(|s|);
    assert |group| == 4 && |rest| == |s| - 4;
    if WellFormed(s) {
      GroupFirst(s);
    }
  }

  lemma GroupAt(src: seq<byte>, i: nat)
    requires i + 3 < |src|
    ensures WellFormed(src[i..]) <==> InAlphabet(src[i..i + 4]) && WellFormed(src[i + 4..])
    ensures WellFormed(src[i..]) ==> Decoded(src[i..]) == Decoded(src[i..i + 4]) + Decoded(src[i + 4..])
  {
    hide Decoded, WellFormed, InAlphabet;
    var rest := src[i..];
    assert rest[..4] == src[i..i + 4] && rest[4..] == src[i + 4..];
    GroupDecoded(rest);
  }

  lemma GroupFirst(s: seq<byte>)
    requires |s| > 3 && WellFormed(s) && WellFormed(s[..4]) && WellFormed(s[4..])
    ensures Decoded(s) == Decoded(s[..4]) + Decoded(s[4..])
  {
    hide First, Second, Third, Val, InAlphabet;
    var group := s[..4];
    assert group[0] == s[0] && group[1] == s[1] && group[2] == s[2] && group[3] == s[3];
    assert group[4..] == [];
  }

  lemma {:induction false} DecodedLength(s: seq<byte>)
    requires WellFormed(s)
    ensures |Decoded(s)| == 3 * |s| / 4
  {
    if |s| > 3 {
      GroupDecoded(s);
      DecodedLength(s[4..]);
      assert |Decoded(s[..4])| == 3 by { assert s[..4][4..] == []; }
    }
  }

  /** Decodes one complete group of four characters. */
  method DecodeGroup(src: seq<byte>, dst: array<byte>, out: nat, cap: nat) returns (ok: bool)
    requires out <= cap <= dst.Length && |src| == 4
    modifies dst
    ensures ok <==> InAlphabet(src) && out + 3 <= cap
    ensures ok ==> dst[..out + 3] == old(dst[..out]) + Decoded(src)
    ensures ok ==> dst[out + 3..] == old(dst[out + 3..])
    ensures !ok ==> dst[..] == old(dst[..])
  {
    hide First, Second, Third, CharToVal;
    assert src[4..] == [];
    var v0, v1, v2, v3 := CharToVal(src[0]), CharToVal(src[1]), CharToVal(src[2]), CharToVal(src[3]);
    if v0 == None || v1 == None || v2 == None || v3 == None {
      return false;
    }
    if out + 3 > cap {
      return false;
    }
    dst[out] := First(v0.value, v1.value);
    dst[out + 1] := Second(v1.value, v2.value);
    dst[out + 2] := Third(v2.value, v3.value);
    return true;
  }

  /** Decodes the characters behind the last complete group. */
  method DecodeRest(src: seq<byte>, dst: array<byte>, out: nat, cap: nat) returns (n: int)
    requires out <= cap <= dst.Length && |src| < 4
    modifies dst
    ensures n == if WellFormed(src) && out + 3 * |src| / 4 <= cap then out + 3 * |src| / 4 else -1
    ensures n >= 0 ==> dst[..n] == old(dst[..out]) + Decoded(src)
    ensures n >= 0 ==> dst[n..] == old(dst[n..])
    ensures n < 0 ==> dst[..] == old(dst[..])
  {
    hide First, Second, Third, CharToVal;
    var rem := |src|;
    if rem == 1 {
      return -1;
    } else if rem == 2 {
      var v0, v1 := CharToVal(src[0]), CharToVal(src[1]);
      if v0 == None || v1 == None {
        return -1;
      }
      if out + 1 > cap {
        return -1;
      }
      dst[out] := First(v0.value, v1.value);
      return out + 1;
    } else if rem == 3 {
      var v0, v1, v2 := CharToVal(src[0]), CharToVal(src[1]), CharToVal(src[2]);
      if v0 == None || v1 == None || v2 == None {
        return -1;
      }
      if out + 2 > cap {
        return -1;
      }
      dst[out] := First(v0.value, v1.value);
      dst[out + 1] := Second(v1.value, v2.value);
      return out + 2;
    }
    return out;
  }

  /**
   Decodes `src` into the first `cap` cells of `dst`. It succeeds exactly when
   every character belongs to the alphabet, no single character is left over
   and the octets fit; a failing call may have filled part of the buffer.
   */
  method Decode(src: seq<byte>, dst: array<byte>, cap: nat) returns (n: int)
    requires cap <= dst.Length
    modifies dst
    ensures n == if WellFormed(src) && 3 * |src| / 4 <= cap then 3 * |src| / 4 else -1
    ensures n >= 0 ==> dst[..n] == Decoded(src) && dst[n..] == old(dst[n..])
    ensures dst[cap..] == old(dst[cap..])
  {
    hide Decoded, InAlphabet, WellFormed;
    ghost var was := dst[..];
    var out, i := 0, 0;
    ghost var groups := 0;
    while i + 3 < |src|
      invariant 0 <= i <= |src| && i == 4 * groups && out == 3 * groups <= cap
      invariant dst[out..] == was[out..]
      invariant WellFormed(src) <==> WellFormed(src[i..])
      invariant WellFormed(src) ==> dst[..out] + Decoded(src[i..]) == Decoded(src)
    {
      GroupAt(src, i);
      var ok := DecodeGroup(src[i..i + 4], dst, out, cap);
      if !ok {
        return -1;
      }
      assert dst[out + 3..] == was[out..][3..];
      out := out + 3;
      i := i + 4;
      groups := groups + 1;
    }
    n := DecodeRest(src[i..], dst, out, cap);
    if n >= 0 {
      assert dst[n..] == was[out..][n - out..];
    }
  }

  // ---------------------------------------------------------------------
  // The encoder it inverts
  // ---------------------------------------------------------------------

  function Sextet0(b0: byte): (v: byte)
    ensures v < 64
  {
    b0 >> 2
  }

  function Sextet1(b0: byte, b1: byte): (v: byte)
    ensures v < 64
  {
    ((b0 & 0x03) << 4) | (b1 >> 4)
  }

  function Sextet2(b1: byte, b2: byte): (v: byte)
    ensures v < 64
  {
    ((b1 & 0x0F) << 2) | (b2 >> 6)
  }

  function Sextet3(b2: byte): (v: byte)
    ensures v < 64
  {
    b2 & 0x3F
  }

  /** The four characters hold the 24 bits of the three octets, in order. */
  lemma SameBits(b0: byte, b1: byte, b2: byte)
    ensures ((Sextet0(b0) as bv32) << 18) | ((Sextet1(b0, b1) as bv32) << 12)
            | ((Sextet2(b1, b2) as bv32) << 6) | (Sextet3(b2) as bv32)
            == ((b0 as bv32) << 16) | ((b1 as bv32) << 8) | (b2 as bv32)
  {}

  /** Unpadded base64url of a byte string. */
  function Encode(b: seq<byte>): seq<byte> {
    if b == [] then []
    else if |b| == 1 then [ValToChar(Sextet0(b[0])), ValToChar(Sextet1(b[0], 0))]
    else if |b| == 2 then
      [ValToChar(Sextet0(b[0])), ValToChar(Sextet1(b[0], b[1])), ValToChar(Sextet2(b[1], 0))]
    else
      [ValToChar(Sextet0(b[0])), ValToChar(Sextet1(b[0], b[1])),
       ValToChar(Sextet2(b[1], b[2])), ValToChar(Sextet3(b[2]))] + Encode(b[3..])
  }

  /** Test vectors of section 10 of RFC 4648: f, fo and foo give Zg, Zm8 and Zm9v. */
  lemma TestVectors()
    ensures Encode([0x66]) == [0x5A, 0x67] && Encode([0x66, 0x6F]) == [0x5A, 0x6D, 0x38]
    ensures Encode([0x66, 0x6F, 0x6F]) == [0x5A, 0x6D, 0x39, 0x76]
  {
    assert Encode([]) == [];
    assert [0x66, 0x6F, 0x6F][3..] == [];
  }

  lemma {:induction false} EncodedLength(b: seq<byte>)
    ensures |Encode(b)| == (4 * |b| + 2) / 3
  {
    hide ValToChar, Sextet0, Sextet1, Sextet2, Sextet3;
    if |b| > 2 { EncodedLength(b[3..]); }
  }

  lemma OctetsOfSextets(b0: byte, b1: byte, b2: byte)
    ensures First(Sextet0(b0), Sextet1(b0, b1)) == b0
    ensures Second(Sextet1(b0, b1), Sextet2(b1, b2)) == b1
    ensures Third(Sextet2(b1, b2), Sextet3(b2)) == b2
  {}

  lemma FirstSextets(v0: byte, v1: byte, v2: byte)
    requires v0 < 64 && v1 < 64 && v2 < 64
    ensures Sextet0(First(v0, v1)) == v0
    ensures Sextet1(First(v0, v1), Second(v1, v2)) == v1
    ensures Sextet1(First(v0, v1), 0) == v1 & 0x30
  {}

  lemma LastSextets(v1: byte, v2: byte, v3: byte)
    requires v1 < 64 && v2 < 64 && v3 < 64
    ensures Sextet2(Second(v1, v2), Third(v2, v3)) == v2
    ensures Sextet3(Third(v2, v3)) == v3
    ensures Sextet2(Second(v1, v2), 0) == v2 & 0x3C
  {}

  lemma UnusedBits(v: byte)
    requires v < 64
    ensures v & 0x30 == v <==> v & 0x0F == 0
    ensures v & 0x3C == v <==> v & 0x03 == 0
    ensures v & 0x30 < 64 && v & 0x3C < 64
  {}

  lemma {:induction false} EncodeInAlphabet(b: seq<byte>)
    ensures WellFormed(Encode(b))
  {
    hide CharToVal, ValToChar, Sextet0, Sextet1, Sextet2, Sextet3;
    forall v | v < 64 ensures CharToVal(ValToChar(v)) == Some(v) {
      ValOfChar(v);
    }
    if |b| > 2 { EncodeInAlphabet(b[3..]); }
  }

  /** Every byte string survives encoding and decoding. */
  lemma {:induction false} DecodeEncode(b: seq<byte>)
    ensures WellFormed(Encode(b)) && Decoded(Encode(b)) == b
  {
    hide CharToVal, ValToChar, First, Second, Third, Sextet0, Sextet1, Sextet2, Sextet3;
    EncodeInAlphabet(b);
    forall v | v < 64 ensures CharToVal(ValToChar(v)) == Some(v) {
      ValOfChar(v);
    }
    if |b| == 1 {
      OctetsOfSextets(b[0], 0, 0);
    } else if |b| == 2 {
      OctetsOfSextets(b[0], b[1], 0);
    } else if |b| > 2 {
      OctetsOfSextets(b[0], b[1], b[2]);
      DecodeEncode(b[3..]);
      assert Encode(b)[4..] == Encode(b[3..]);
    }
  }

  /** An encoded string is decoded into exactly as many cells as it had octets; fewer are not enough. */
  method DecodeEncoded(b: seq<byte>, dst: array<byte>, cap: nat) returns (n: int)
    requires cap <= dst.Length
    modifies dst
    ensures n == if |b| <= cap then |b| else -1
    ensures n >= 0 ==> dst[..n] == b
    ensures dst[cap..] == old(dst[cap..])
  {
    hide Encode, Decoded, WellFormed;
    EncodedLength(b);
    DecodeEncode(b);
    n := Decode(Encode(b), dst, cap);
  }

  /** The bits of the last character that fill no octet are zero. */
  predicate UnusedBitsZero(s: seq<byte>)
    requires InAlphabet(s)
  {
    && (|s| % 4 == 2 ==> Val(s[|s| - 1]) & 0x0F == 0)
    && (|s| % 4 == 3 ==> Val(s[|s| - 1]) & 0x03 == 0)
  }

  /** Encoding again returns the text exactly when its unused trailing bits are zero. */
  lemma {:induction false} EncodeDecode(s: seq<byte>)
    requires WellFormed(s)
    ensures Encode(Decoded(s)) == s <==> UnusedBitsZero(s)
  {
    hide CharToVal, ValToChar, Encode, Decoded;
    if |s| > 3 {
      AlphabetConcat(s, 4);
      EncodeDecode(s[4..]);
      GroupAgain(s);
      assert s == s[..4] + s[4..];
    } else {
      RestAgain(s);
    }
  }

  lemma GroupDecodes(s: seq<byte>)
    requires WellFormed(s) && |s| > 3 && WellFormed(s[4..])
    ensures Decoded(s) ==
            [First(Val(s[0]), Val(s[1])), Second(Val(s[1]), Val(s[2])), Third(Val(s[2]), Val(s[3]))] + Decoded(s[4..])
  {
    hide First, Second, Third, CharToVal, Val;
  }

  lemma GroupEncodes(b0: byte, b1: byte, b2: byte, rest: seq<byte>)
    ensures Encode([b0, b1, b2] + rest)
              == [ValToChar(Sextet0(b0)), ValToChar(Sextet1(b0, b1)),
                  ValToChar(Sextet2(b1, b2)), ValToChar(Sextet3(b2))]
                   + Encode(rest)
  {
    hide ValToChar, Sextet0, Sextet1, Sextet2, Sextet3;
    assert ([b0, b1, b2] + rest)[3..] == rest;
  }

  /** Each of four characters comes back from the octets of their group. */
  lemma SameCharacters(c0: byte, c1: byte, c2: byte, c3: byte)
    requires CharToVal(c0).Some? && CharToVal(c1).Some? && CharToVal(c2).Some? && CharToVal(c3).Some?
    ensures ValToChar(Sextet0(First(Val(c0), Val(c1)))) == c0
    ensures ValToChar(Sextet1(First(Val(c0), Val(c1)), Second(Val(c1), Val(c2)))) == c1
    ensures ValToChar(Sextet2(Second(Val(c1), Val(c2)), Third(Val(c2), Val(c3)))) == c2
    ensures ValToChar(Sextet3(Third(Val(c2), Val(c3)))) == c3
  {
    hide CharToVal, ValToChar, First, Second, Third, Sextet0, Sextet1, Sextet2, Sextet3;
    Restored(c0);
    Restored(c1);
    Restored(c2);
    Restored(c3);
    FirstSextets(Val(c0), Val(c1), Val(c2));
    LastSextets(Val(c1), Val(c2), Val(c3));
  }

  lemma GroupAgain(s: seq<byte>)
    requires WellFormed(s) && |s| > 3 && WellFormed(s[4..])
    ensures Encode(Decoded(s)) == s[..4] + Encode(Decoded(s[4..]))
  {
    hide CharToVal, Val, ValToChar, First, Second, Third, Sextet0, Sextet1, Sextet2, Sextet3, Encode, Decoded;
    SameCharacters(s[0], s[1], s[2], s[3]);
    GroupDecodes(s);
    GroupEncodes(First(Val(s[0]), Val(s[1])), Second(Val(s[1]), Val(s[2])), Third(Val(s[2]), Val(s[3])),
                 Decoded(s[4..]));
    assert s[..4] == [s[0], s[1], s[2], s[3]];
  }

  lemma RestAgain(s: seq<byte>)
    requires WellFormed(s) && |s| <= 3
    ensures Encode(Decoded(s)) == s <==> UnusedBitsZero(s)
  {
    hide CharToVal, Val, Encode, Decoded;
    if |s| == 2 {
      PairAgain(s);
    } else if |s| == 3 {
      TripleAgain(s);
    } else {
      assert s == [];
      NothingAgain();
    }
  }

  lemma NothingAgain()
    ensures WellFormed([]) && Encode(Decoded([])) == []
  {}

  lemma PairAgain(s: seq<byte>)
    requires WellFormed(s) && |s| == 2
    ensures Encode(Decoded(s)) == s <==> Val(s[1]) & 0x0F == 0
  {
    hide CharToVal, ValToChar, First, Second, Third, Sextet0, Sextet1, Sextet2, Sextet3;
    Restored(s[0]);
    Restored(s[1]);
    FirstSextets(Val(s[0]), Val(s[1]), 0);
    UnusedBits(Val(s[1]));
    ValOfChar(Val(s[1]) & 0x30);
  }

  lemma TripleAgain(s: seq<byte>)
    requires WellFormed(s) && |s| == 3
    ensures Encode(Decoded(s)) == s <==> Val(s[2]) & 0x03 == 0
  {
    hide CharToVal, ValToChar, First, Second, Third, Sextet0, Sextet1, Sextet2, Sextet3;
    Restored(s[0]);
    Restored(s[1]);
    Restored(s[2]);
    FirstSextets(Val(s[0]), Val(s[1]), Val(s[2]));
    LastSextets(Val(s[1]), Val(s[2]), 0);
    UnusedBits(Val(s[2]));
    ValOfChar(Val(s[2]) & 0x3C);
  }

  lemma Restored(c: byte)
    requires CharToVal(c).Some?
    ensures ValToChar(Val(c)) == c
  {
    CharOfVal(c);
  }
}
