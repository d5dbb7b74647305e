/**
 Number texts (components/dsp_json/cjson/cJSON.c, parse_number and
 print_number). Values are real numbers: rounding to binary floating point and
 overflow are not modelled, and only values the source prints with `%d` have a
 rendering.
 */
module JsonNumber {
  import opened CText

  const INT_MAX := 0x7FFF_FFFF
  const INT_MIN := -0x8000_0000

  predicate IsDigit(c: uchar) {
    0x30 <= c <= 0x39
  }

  /** The characters the reader collects before it hands the text to `strtod`. */
  predicate IsNumberChar(c: uchar) {
    IsDigit(c) || c == 0x2B || c == MINUS || c == 0x2E || c == 0x65 || c == 0x45
  }

  function DigitValue(c: uchar): (d: nat)
    requires IsDigit(c)
    ensures d < 10
  {
    (c - 0x30) as int
  }

  function DigitChar(d: nat): (c: uchar)
    requires d < 10
    ensures IsDigit(c) && DigitValue(c) == d
  {
    (0x30 + d) as uchar
  }

  // ---------------------------------------------------------------------
  // Printing
  // ---------------------------------------------------------------------

  function Digits(n: nat): (t: text)
    ensures t != [] && forall i :: 0 <= i < |t| ==> IsDigit(t[i])
  {
    if n < 10 then [DigitChar(n)] else Digits(n / 10) + [DigitChar(n % 10)]
  }

  /** What `%d` prints. */
  function Decimal(n: int): (t: text)
    ensures t != [] && forall i :: 0 <= i < |t| ==> IsNumberChar(t[i])
    ensures t[0] == MINUS || IsDigit(t[0])
  {
    if n < 0 then [MINUS] + Digits(-n) else Digits(n)
  }

  /** The integer field that accompanies a number: truncated toward zero and saturated. */
  function IntValue(r: real): int {
    if r >= INT_MAX as real then INT_MAX
    else if r <= INT_MIN as real then INT_MIN
    else if r >= 0.0 then r.Floor else -((-r).Floor)
  }

  /** Toward zero to the next integer, and no further than 32 bits reach. */
  lemma IntValueMeans(r: real)
    ensures r >= 2147483647.0 ==> IntValue(r) == 2147483647
    ensures r <= -2147483648.0 ==> IntValue(r) == -2147483648
    ensures 0.0 <= r < 2147483647.0 ==> IntValue(r) as real <= r < IntValue(r) as real + 1.0
    ensures -2147483648.0 < r < 0.0 ==> IntValue(r) as real - 1.0 < r <= IntValue(r) as real
  {}

  /** The numbers that are printed with `%d`. */
  predicate PrintsAsInt(r: real) {
    r == IntValue(r) as real
  }

  lemma IntsPrintAsInt(n: int)
    requires INT_MIN <= n <= INT_MAX
    ensures IntValue(n as real) == n && PrintsAsInt(n as real)
  {}

  // ---------------------------------------------------------------------
  // Reading
  // ---------------------------------------------------------------------

  function DigitsEnd(r: text, i: nat): (e: nat)
    requires i <= |r|
    ensures i <= e <= |r|
    ensures forall k :: i <= k < e ==> IsDigit(r[k])
    ensures e < |r| ==> !IsDigit(r[e])
    decreases |r| - i
  {
    if i < |r| && IsDigit(r[i]) then DigitsEnd(r, i + 1) else i
  }

  function SignEnd(r: text, i: nat): (e: nat)
    requires i <= |r|
    ensures i <= e <= |r|
  {
    if i < |r| && (r[i] == 0x2B || r[i] == MINUS) then i + 1 else i
  }

  /** The number the digits in front of position `e` spell. */
  function NatOf(r: text, i: nat, e: nat): nat
    requires i <= e <= |r|
    requires forall k :: i <= k < e ==> IsDigit(r[k])
    decreases e - i
  {
    if i == e then 0 else NatOf(r, i, e - 1) * 10 + DigitValue(r[e - 1])
  }

  function Pow10(n: nat): real {
    if n == 0 then 1.0 else 10.0 * Pow10(n - 1)
  }

  lemma Pow10Positive(n: nat)
    ensures Pow10(n) > 0.0
  {}

  function Scale(mantissa: real, exponent: int): real {
    if exponent >= 0 then mantissa * Pow10(exponent)
    else Pow10Positive(-exponent); mantissa / Pow10(-exponent)
  }

  datatype NumberResult = NoNumber | ANumber(value: real, consumed: nat)

  /**
   `strtod` in the C locale on a text of digits, signs, dots and `e`: an
   optional sign, digits with an optional fraction, and an exponent that only
   counts if it has digits.
   */
  function Strtod(r: text): (n: NumberResult)
    ensures n.ANumber? ==> 0 < n.consumed <= |r|
  {
    var i := SignEnd(r, 0);
    var e := DigitsEnd(r, i);
    var dot := e < |r| && r[e] == 0x2E;
    var f := if dot then DigitsEnd(r, e + 1) else e;
    var fraction := if dot then f - (e + 1) else 0;
    if e == i && fraction == 0 then NoNumber
    else
      var whole := NatOf(r, i, e) as real;
      var mantissa := if dot then whole + Scale(NatOf(r, e + 1, f) as real, -fraction) else whole;
      var signed := if i == 1 && r[0] == MINUS then -mantissa else mantissa;
      if f < |r| && (r[f] == 0x65 || r[f] == 0x45) then
        var x := SignEnd(r, f + 1);
        var y := DigitsEnd(r, x);
        if y == x then ANumber(signed, f)
        else
          var exponent: int := NatOf(r, x, y);
          ANumber(Scale(signed, if x == f + 2 && r[f + 1] == MINUS then -exponent else exponent), y)
      else ANumber(signed, f)
  }

  function NumberEnd(s: text, i: nat): (e: nat)
    requires i <= |s|
    ensures i <= e <= |s|
    ensures forall k :: i <= k < e ==> IsNumberChar(s[k])
    ensures e < |s| ==> !IsNumberChar(s[e])
    decreases |s| - i
  {
    if i < |s| && IsNumberChar(s[i]) then NumberEnd(s, i + 1) else i
  }

  /** The number at position `i` of a text, and how many characters it takes. */
  function NumberAt(s: text, i: nat): (n: NumberResult)
    requires i <= |s|
    ensures n.ANumber? ==> 0 < n.consumed && i + n.consumed <= |s|
  {
    Strtod(s[i..NumberEnd(s, i)])
  }

  method ParseNumber(s: text, at: nat) returns (n: NumberResult)
    requires at <= |s|
    ensures n == NumberAt(s, at)
  {
    var i := 0;
    while at + i < |s| && IsNumberChar(s[at + i])
      invariant at + i <= |s|
      invariant NumberEnd(s, at + i) == NumberEnd(s, at)
    {
      i := i + 1;
    }
    n := Strtod(s[at..at + i]);
  }

  // ---------------------------------------------------------------------
  // Round trip
  // ---------------------------------------------------------------------

  lemma {:induction false} DigitsSpell(n: nat)
    ensures NatOf(Digits(n), 0, |Digits(n)|) == n
  {
    if n >= 10 {
      var t, d := Digits(n / 10), Digits(n);
      DigitsSpell(n / 10);
      SameDigitsSameNumber(t, 0, d, 0, |t|);
    }
  }

  lemma {:induction false} SameDigitsSameNumber(a: text, i: nat, b: text, j: nat, n: nat)
    requires i + n <= |a| && j + n <= |b|
    requires a[i..i + n] == b[j..j + n]
    requires forall k :: i <= k < i + n ==> IsDigit(a[k])
    requires forall k :: j <= k < j + n ==> IsDigit(b[k])
    ensures NatOf(a, i, i + n) == NatOf(b, j, j + n)
  {
    if n > 0 {
      assert a[i..i + n][..n - 1] == a[i..i + (n - 1)];
      assert b[j..j + n][..n - 1] == b[j..j + (n - 1)];
      SameDigitsSameNumber(a, i, b, j, n - 1);
      assert a[i..i + n][n - 1] == b[j..j + n][n - 1];
    }
  }

  lemma {:induction false} DigitsEndAtEnd(r: text, i: nat)
    requires i <= |r|
    requires forall k :: i <= k < |r| ==> IsDigit(r[k])
    ensures DigitsEnd(r, i) == |r|
    decreases |r| - i
  {
    if i < |r| { DigitsEndAtEnd(r, i + 1); }
  }

  lemma StrtodOfDecimal(n: int)
    ensures Strtod(Decimal(n)) == ANumber(n as real, |Decimal(n)|)
  {
    var t := Decimal(n);
    if n < 0 {
      var d := Digits(-n);
      DigitsEndAtEnd(t, 1);
      DigitsSpell(-n);
      SameDigitsSameNumber(d, 0, t, 1, |d|);
    } else {
      DigitsEndAtEnd(t, 0);
      DigitsSpell(n);
    }
  }

  lemma {:induction false} NumberEndIs(s: text, i: nat, e: nat)
    requires i <= e <= |s|
    requires forall k :: i <= k < e ==> IsNumberChar(s[k])
    requires e < |s| ==> !IsNumberChar(s[e])
    ensures NumberEnd(s, i) == e
    decreases e - i
  {
    if i < e { NumberEndIs(s, i + 1, e); }
  }

  /** A printed integer is read back exactly, wherever it stands, if no number character follows it. */
  lemma DecimalRoundTrip(s: text, at: nat, n: int)
    requires At(s, at, Decimal(n))
    requires at + |Decimal(n)| < |s| ==> !IsNumberChar(s[at + |Decimal(n)|])
    ensures NumberAt(s, at) == ANumber(n as real, |Decimal(n)|)
  {
    var e := at + |Decimal(n)|;
    assert forall k :: at <= k < e ==> s[k] == Decimal(n)[k - at];
    NumberEndIs(s, at, e);
    StrtodOfDecimal(n);
  }
}
