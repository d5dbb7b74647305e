/**
 The `\uXXXX` escapes of a JSON string and their conversion to UTF-8
 (components/dsp_json/cjson/cJSON.c, parse_hex4 and utf16_literal_to_utf8).
 No value here exceeds 0x10FFFF, so the unsigned types of the source never wrap
 and its shifts and masks are the divisions and remainders written below.
 */
module Utf16 {
  import opened CText

  const LOWER_U: uchar := 0x75

  // ---------------------------------------------------------------------
  // Hexadecimal digits
  // ---------------------------------------------------------------------

  predicate IsHex(c: uchar) {
    0x30 <= c <= 0x39 || 0x41 <= c <= 0x46 || 0x61 <= c <= 0x66
  }

  /** The value of one hexadecimal digit, either case. */
  function HexValue(c: uchar): (v: nat)
    requires IsHex(c)
    ensures v < 16
  {
    if c <= 0x39 then (c - 0x30) as int
    else if c <= 0x46 then (c - 0x41) as int + 10
    else (c - 0x61) as int + 10
  }

  ghost predicate AllHex(s: text, from: nat, to: nat)
    requires to <= |s|
  {
    forall k :: from <= k < to ==> IsHex(s[k])
  }

  /** The number that `n` hexadecimal digits spell. */
  ghost function Positional(s: text, at: nat, n: nat): nat
    requires at + n <= |s| && AllHex(s, at, at + n)
  {
    if n == 0 then 0 else Positional(s, at, n - 1) * 16 + HexValue(s[at + n - 1])
  }

  /** The number four hexadecimal digits spell, and 0 if one of them is not a digit. */
  ghost function Hex4(s: text, at: nat): (h: nat)
    requires at + 4 <= |s|
    ensures h <= 0xFFFF
  {
    if AllHex(s, at, at + 4) then PositionalBound(s, at, 4); Positional(s, at, 4) else 0
  }

  lemma PositionalBound(s: text, at: nat, n: nat)
    requires at + n <= |s| && AllHex(s, at, at + n)
    requires n <= 4
    ensures Positional(s, at, n) < [1, 0x10, 0x100, 0x1000, 0x10000][n]
  {
    if n > 0 { PositionalBound(s, at, n - 1); }
  }

  method ParseHex4(s: text, at: nat) returns (h: nat)
    requires at + 4 <= |s|
    ensures h == Hex4(s, at)
  {
    h := 0;
    var i := 0;
    while i < 4
      invariant 0 <= i <= 4
      invariant AllHex(s, at, at + i)
      invariant h == Positional(s, at, i) * if 0 < i < 4 then 16 else 1
    {
      var c := s[at + i];
      if 0x30 <= c <= 0x39 {
        h := h + (c - 0x30) as int;
      } else if 0x41 <= c <= 0x46 {
        h := h + 10 + (c - 0x41) as int;
      } else if 0x61 <= c <= 0x66 {
        h := h + 10 + (c - 0x61) as int;
      } else {
        return 0;
      }
      if i < 3 {
        h := h * 16;
      }
      i := i + 1;
    }
  }

  /** `c` is the hexadecimal digit of value `n`, in upper or lower case. */
  predicate SpellsDigit(c: uchar, n: nat)
    requires n < 16
  {
    c == Lit("0123456789ABCDEF")[n] || c == Lit("0123456789abcdef")[n]
  }

  /** The four characters at `at` are the hexadecimal digits of `n`, the most significant first, in any mix of case. */
  predicate SpellsUnit(s: text, at: nat, n: nat)
    requires at + 4 <= |s| && n <= 0xFFFF
  {
    && SpellsDigit(s[at], n / 0x1000) && SpellsDigit(s[at + 1], n / 0x100 % 16)
    && SpellsDigit(s[at + 2], n / 16 % 16) && SpellsDigit(s[at + 3], n % 16)
  }

  lemma DigitHasValue(c: uchar, n: nat)
    requires n < 16 && SpellsDigit(c, n)
    ensures IsHex(c) && HexValue(c) == n
  {
    var upper, lower := Lit("0123456789ABCDEF"), Lit("0123456789abcdef");
    assert upper[n] as int == "0123456789ABCDEF"[n] as int && lower[n] as int == "0123456789abcdef"[n] as int;
  }

  lemma ValueIsSpelled(c: uchar)
    requires IsHex(c)
    ensures SpellsDigit(c, HexValue(c))
  {
    var n := HexValue(c);
    var upper, lower := Lit("0123456789ABCDEF"), Lit("0123456789abcdef");
    assert upper[n] as int == "0123456789ABCDEF"[n] as int && lower[n] as int == "0123456789abcdef"[n] as int;
  }

  lemma FourPlaces(s: text, at: nat)
    requires at + 4 <= |s| && AllHex(s, at, at + 4)
    ensures Positional(s, at, 4) ==
            HexValue(s[at]) * 0x1000 + HexValue(s[at + 1]) * 0x100 + HexValue(s[at + 2]) * 16 + HexValue(s[at + 3])
  {
    hide HexValue;
    assert Positional(s, at, 1) == HexValue(s[at]);
    assert Positional(s, at, 2) == HexValue(s[at]) * 16 + HexValue(s[at + 1]);
    assert Positional(s, at, 3) == (HexValue(s[at]) * 16 + HexValue(s[at + 1])) * 16 + HexValue(s[at + 2]);
  }

  lemma PlacesSum(n: nat)
    requires n <= 0xFFFF
    ensures n / 0x1000 < 16
    ensures n / 0x1000 * 0x1000 + n / 0x100 % 16 * 0x100 + n / 16 % 16 * 16 + n % 16 == n
  {
    assert n / 0x100 == n / 0x1000 * 16 + n / 0x100 % 16;
    assert n / 16 == n / 0x100 * 16 + n / 16 % 16;
  }

  /** Four digits are read as the number they spell, for every number and any mix of case. */
  lemma SpelledUnitIsRead(s: text, at: nat, n: nat)
    requires at + 4 <= |s| && n <= 0xFFFF && SpellsUnit(s, at, n)
    ensures AllHex(s, at, at + 4) && Hex4(s, at) == n
  {
    hide SpellsDigit, HexValue, Positional;
    PlacesSum(n);
    DigitHasValue(s[at], n / 0x1000);
    DigitHasValue(s[at + 1], n / 0x100 % 16);
    DigitHasValue(s[at + 2], n / 16 % 16);
    DigitHasValue(s[at + 3], n % 16);
    FourPlaces(s, at);
  }

  lemma PlacesUnique(a: nat, b: nat, c: nat, d: nat)
    requires a < 16 && b < 16 && c < 16 && d < 16
    ensures var n := a * 0x1000 + b * 0x100 + c * 16 + d;
            n <= 0xFFFF && n / 0x1000 == a && n / 0x100 % 16 == b && n / 16 % 16 == c && n % 16 == d
  {
    assert (a * 0x1000 + b * 0x100 + c * 16 + d) / 16 == a * 0x100 + b * 16 + c;
    assert (a * 0x1000 + b * 0x100 + c * 16 + d) / 0x100 == a * 16 + b;
  }

  /** Nothing but the spelling of a number is taken for four digits. */
  lemma ReadUnitIsSpelled(s: text, at: nat)
    requires at + 4 <= |s| && AllHex(s, at, at + 4)
    ensures SpellsUnit(s, at, Hex4(s, at))
  {
    hide SpellsDigit, HexValue, Positional;
    FourPlaces(s, at);
    PlacesUnique(HexValue(s[at]), HexValue(s[at + 1]), HexValue(s[at + 2]), HexValue(s[at + 3]));
    ValueIsSpelled(s[at]);
    ValueIsSpelled(s[at + 1]);
    ValueIsSpelled(s[at + 2]);
    ValueIsSpelled(s[at + 3]);
  }

  // ---------------------------------------------------------------------
  // From escapes to code points (section 2.2 of RFC 2781)
  // ---------------------------------------------------------------------

  datatype Literal = Invalid | Literal(codepoint: nat, consumed: nat)

  /** The escape, or pair of escapes, at `p`, with the string content ending at `end`. */
  ghost function DecodeEscape(s: text, p: nat, end: nat): (l: Literal)
    requires p <= end <= |s|
    ensures l.Literal? ==> l.codepoint <= 0x10FFFF && p + l.consumed <= end && (l.consumed == 6 || l.consumed == 12)
  {
    if end - p < 6 then Invalid
    else
      var first := Hex4(s, p + 2);
      if 0xDC00 <= first <= 0xDFFF then Invalid
      else if 0xD800 <= first <= 0xDBFF then
        if end - (p + 6) < 6 || s[p + 6] != BACKSLASH || s[p + 7] != LOWER_U then Invalid
        else
          var second := Hex4(s, p + 8);
          if second < 0xDC00 || second > 0xDFFF then Invalid
          else Literal(0x10000 + (first % 0x400) * 0x400 + second % 0x400, 12)
      else Literal(first, 6)
  }

  // ---------------------------------------------------------------------
  // From code points to UTF-8 (section 3 of RFC 3629)
  // ---------------------------------------------------------------------

  function Utf8Length(cp: nat): (n: nat)
    ensures 1 <= n <= 4
  {
    if cp < 0x80 then 1 else if cp < 0x800 then 2 else if cp < 0x10000 then 3 else 4
  }

  /** The low six bits, as a continuation byte. */
  function Continuation(cp: nat): uchar {
    (0x80 + cp % 0x40) as uchar
  }

  /** What remains after the low six bits have been shifted out. */
  function Shr6(cp: nat): nat {
    cp / 0x40
  }

  function Utf8(cp: nat): (bytes: text)
    requires cp <= 0x10FFFF
    ensures |bytes| == Utf8Length(cp)
  {
    if cp < 0x80 then [cp as uchar]
    else if cp < 0x800 then [(0xC0 + Shr6(cp)) as uchar, Continuation(cp)]
    else if cp < 0x10000 then
      [(0xE0 + Shr6(Shr6(cp))) as uchar, Continuation(Shr6(cp)), Continuation(cp)]
    else
      [(0xF0 + Shr6(Shr6(Shr6(cp)))) as uchar, Continuation(Shr6(Shr6(cp))), Continuation(Shr6(cp)), Continuation(cp)]
  }

  predicate IsContinuation(c: uchar) {
    0x80 <= c <= 0xBF
  }

  /** The six bits a continuation byte adds below `high`. */
  function Extend(high: nat, c: uchar): nat
    requires IsContinuation(c)
  {
    high * 0x40 + (c - 0x80) as int
  }

  ghost predicate IsScalar(cp: nat) {
    cp <= 0xD7FF || 0xE000 <= cp <= 0x10FFFF
  }

  /** A decoder that follows the standard's table: shortest form only, no surrogates. */
  ghost function DecodeUtf8(b: text): Option<nat> {
    if |b| == 1 && b[0] < 0x80 then Some(b[0] as int)
    else if |b| == 2 && 0xC0 <= b[0] <= 0xDF && IsContinuation(b[1]) then
      Shortest(2, Extend((b[0] - 0xC0) as int, b[1]))
    else if |b| == 3 && 0xE0 <= b[0] <= 0xEF && IsContinuation(b[1]) && IsContinuation(b[2]) then
      Shortest(3, Extend(Extend((b[0] - 0xE0) as int, b[1]), b[2]))
    else if |b| == 4 && 0xF0 <= b[0] <= 0xF7
            && IsContinuation(b[1]) && IsContinuation(b[2]) && IsContinuation(b[3]) then
      Shortest(4, Extend(Extend(Extend((b[0] - 0xF0) as int, b[1]), b[2]), b[3]))
    else None
  }

  ghost function Shortest(length: nat, cp: nat): Option<nat> {
    if IsScalar(cp) && Utf8Length(cp) == length then Some(cp) else None
  }

  lemma ExtendSplits(cp: nat)
    ensures IsContinuation(Continuation(cp)) && Extend(Shr6(cp), Continuation(cp)) == cp
  {}

  lemma SplitExtends(high: nat, c: uchar)
    requires IsContinuation(c)
    ensures Shr6(Extend(high, c)) == high && Continuation(Extend(high, c)) == c
  {}

  /** The standard's decoder recovers every scalar value from the bytes that are emitted for it. */
  lemma Utf8RoundTrip(cp: nat)
    requires IsScalar(cp)
    ensures DecodeUtf8(Utf8(cp)) == Some(cp)
  {
    hide Continuation, Extend;
    ExtendSplits(cp);
    ExtendSplits(Shr6(cp));
    ExtendSplits(Shr6(Shr6(cp)));
  }

  /** And what it accepts is exactly what is emitted, so the emitted form is the shortest one. */
  lemma Utf8IsOnlyForm(b: text)
    requires DecodeUtf8(b).Some?
    ensures IsScalar(DecodeUtf8(b).value) && Utf8(DecodeUtf8(b).value) == b
  {
    hide Shr6, Continuation, Extend;
    if |b| > 1 {
      var lead := (b[0] - [0, 0, 0xC0, 0xE0, 0xF0][|b|]) as int;
      SplitExtends(lead, b[1]);
      if |b| > 2 {
        SplitExtends(Extend(lead, b[1]), b[2]);
        if |b| > 3 {
          SplitExtends(Extend(Extend(lead, b[1]), b[2]), b[3]);
        }
      }
    }
  }

  // ---------------------------------------------------------------------
  // What the escapes mean
  // ---------------------------------------------------------------------

  /** The UTF-16 code units of a scalar value. */
  function Utf16Units(cp: nat): seq<nat> {
    if cp < 0x10000 then [cp] else [0xD800 + (cp - 0x10000) / 0x400, 0xDC00 + (cp - 0x10000) % 0x400]
  }

  /** A complete escape stands at `p`: backslash, `u`, four hexadecimal digits. */
  ghost predicate EscapeAt(s: text, p: nat, end: nat) {
    p + 6 <= end <= |s| && s[p] == BACKSLASH && s[p + 1] == LOWER_U && AllHex(s, p + 2, p + 6)
  }

  /** The escapes at `p` spell exactly these code units. */
  ghost predicate Spells(s: text, p: nat, end: nat, units: seq<nat>) {
    && 1 <= |units| <= 2
    && EscapeAt(s, p, end) && Hex4(s, p + 2) == units[0]
    && (|units| == 2 ==> EscapeAt(s, p + 6, end) && Hex4(s, p + 8) == units[1])
  }

  /** At `p` stand a backslash, `u` and the four digits of a code unit. */
  predicate UnitEscape(s: text, p: nat, end: nat, unit: nat)
    requires end <= |s| && unit <= 0xFFFF
  {
    p + 6 <= end && s[p] == Lit("\\")[0] && s[p + 1] == Lit("u")[0] && SpellsUnit(s, p + 2, unit)
  }

  /** The escapes at `p` spell the scalar value in UTF-16: one code unit, or a pair of surrogates. */
  predicate SpelledAt(s: text, p: nat, end: nat, cp: nat)
    requires end <= |s| && cp <= 0x10FFFF
  {
    if cp < 0x10000 then UnitEscape(s, p, end, cp)
    else
      var v := cp - 0x10000;
      UnitEscape(s, p, end, 0xD800 + v / 0x400) && UnitEscape(s, p + 6, end, 0xDC00 + v % 0x400)
  }

  lemma UnitEscapeIsRead(s: text, p: nat, end: nat, unit: nat)
    requires end <= |s| && unit <= 0xFFFF && UnitEscape(s, p, end, unit)
    ensures EscapeAt(s, p, end) && Hex4(s, p + 2) == unit
  {
    hide Hex4, SpellsUnit;
    SpelledUnitIsRead(s, p + 2, unit);
  }

  /**
   Every scalar value, spelled as UTF-16 with digits in any mix of case, is read
   back as that scalar value.
   */
  lemma SpelledIsRead(s: text, p: nat, end: nat, cp: nat)
    requires IsScalar(cp) && end <= |s| && SpelledAt(s, p, end, cp)
    ensures DecodeEscape(s, p, end) == Literal(cp, if cp < 0x10000 then 6 else 12)
  {
    hide UnitEscape, DecodeEscape, Hex4;
    if cp < 0x10000 {
      UnitEscapeIsRead(s, p, end, cp);
    } else {
      UnitEscapeIsRead(s, p, end, 0xD800 + (cp - 0x10000) / 0x400);
      UnitEscapeIsRead(s, p + 6, end, 0xDC00 + (cp - 0x10000) % 0x400);
    }
    UnitsAreRead(s, p, end, cp);
  }

  /** Known characters: U+00C9, U+20AC and U+1F600, in UTF-8 and the last one in UTF-16. */
  lemma KnownCharacters()
    ensures Utf8(0x41) == [0x41] && Utf8(0xC9) == [0xC3, 0x89] && Utf8(0x20AC) == [0xE2, 0x82, 0xAC]
    ensures Utf8(0x1F600) == [0xF0, 0x9F, 0x98, 0x80] && Utf16Units(0x1F600) == [0xD83D, 0xDE00]
  {}

  lemma UnitsAreRead(s: text, p: nat, end: nat, cp: nat)
    requires IsScalar(cp)
    requires Spells(s, p, end, Utf16Units(cp))
    ensures DecodeEscape(s, p, end) == Literal(cp, 6 * |Utf16Units(cp)|)
  {
    if cp >= 0x10000 {
      var v := cp - 0x10000;
      SurrogateParts(v);
    }
  }

  lemma SurrogateParts(v: nat)
    requires v < 0x100000
    ensures v / 0x400 < 0x400
    ensures (0xD800 + v / 0x400) % 0x400 == v / 0x400
    ensures (0xDC00 + v % 0x400) % 0x400 == v % 0x400
    ensures v / 0x400 * 0x400 + v % 0x400 == v
  {}

  lemma SurrogateJoins(first: nat, second: nat)
    requires 0xD800 <= first <= 0xDBFF && 0xDC00 <= second <= 0xDFFF
    ensures var v := (first % 0x400) * 0x400 + second % 0x400;
            v < 0x100000 && 0xD800 + v / 0x400 == first && 0xDC00 + v % 0x400 == second
  {
    var hi, lo := first - 0xD800, second - 0xDC00;
    assert first % 0x400 == hi && second % 0x400 == lo;
    assert (hi * 0x400 + lo) / 0x400 == hi && (hi * 0x400 + lo) % 0x400 == lo;
  }

  /**
   What is read from well-formed escapes is always a scalar value, spelled by
   the escapes that were consumed, and the bytes emitted for it decode back to
   it. A complete escape is rejected exactly when it is a lone or
   mismatched surrogate; malformed digits behind a high surrogate are a mismatch.
   */
  lemma ReadIsSpelled(s: text, p: nat, end: nat)
    requires EscapeAt(s, p, end)
    ensures var l := DecodeEscape(s, p, end);
            l.Literal? ==> IsScalar(l.codepoint) && Spells(s, p, end, Utf16Units(l.codepoint))
                           && l.consumed == 6 * |Utf16Units(l.codepoint)|
                           && DecodeUtf8(Utf8(l.codepoint)) == Some(l.codepoint)
    ensures var l := DecodeEscape(s, p, end); l.Literal? ==> SpelledAt(s, p, end, l.codepoint)
    ensures var first := Hex4(s, p + 2);
            DecodeEscape(s, p, end).Invalid? <==>
              || 0xDC00 <= first <= 0xDFFF
              || (0xD800 <= first <= 0xDBFF
                  && !(EscapeAt(s, p + 6, end) && 0xDC00 <= Hex4(s, p + 8) <= 0xDFFF))
  {
    hide Positional, Utf8, DecodeUtf8, SpellsUnit;
    var l := DecodeEscape(s, p, end);
    var first := Hex4(s, p + 2);
    if l.Literal? {
      ReadUnitIsSpelled(s, p + 2);
      if l.consumed == 12 {
        ReadUnitIsSpelled(s, p + 8);
      }
      if 0xD800 <= first <= 0xDBFF {
        SurrogateJoins(first, Hex4(s, p + 8));
      }
      Utf8RoundTrip(l.codepoint);
    }
  }

  /**
   A quirk of the digit reader: an escape whose digits are malformed is not
   rejected for that. It is rejected exactly when fewer than six characters are
   left for it, and is read as U+0000 otherwise.
   */
  lemma MalformedDigitsReadAsNul(s: text, p: nat, end: nat)
    requires p <= end <= |s| && (p + 6 <= end ==> !AllHex(s, p + 2, p + 6))
    ensures DecodeEscape(s, p, end) == if end - p < 6 then Invalid else Literal(0, 6)
  {}

  // ---------------------------------------------------------------------
  // The conversion
  // ---------------------------------------------------------------------

  method ReadEscape(s: text, p: nat, end: nat) returns (consumed: nat, codepoint: nat)
    requires p <= end <= |s|
    ensures var l := DecodeEscape(s, p, end);
            if l.Invalid? then consumed == 0 else l == Literal(codepoint, consumed)
  {
    if end - p < 6 {
      return 0, 0;
    }
    var first := ParseHex4(s, p + 2);
    if 0xDC00 <= first <= 0xDFFF {
      return 0, 0;
    }
    if 0xD800 <= first <= 0xDBFF {
      var second := p + 6;
      if end - second < 6 {
        return 0, 0;
      }
      if s[second] != BACKSLASH || s[second + 1] != LOWER_U {
        return 0, 0;
      }
      var secondCode := ParseHex4(s, second + 2);
      if secondCode < 0xDC00 || secondCode > 0xDFFF {
        return 0, 0;
      }
      return 12, 0x10000 + ((first % 0x400) * 0x400 + secondCode % 0x400);
    } else {
      return 6, first;
    }
  }

  /** The code point without its `n` lowest groups of six bits. */
  function Shifted(cp: nat, n: nat): nat {
    if n == 0 then cp else Shr6(Shifted(cp, n - 1))
  }

  /** Writes the bytes from the last one to the first, as the source does. */
  method WriteUtf8(cp: nat, out: array<uchar>, at: nat)
    requires cp <= 0x10FFFF
    requires at + Utf8Length(cp) <= out.Length
    modifies out
    ensures out[at..at + Utf8Length(cp)] == Utf8(cp)
    ensures forall k :: 0 <= k < out.Length && !(at <= k < at + Utf8Length(cp)) ==> out[k] == old(out[k])
  {
    hide Utf8, Continuation, Shr6;
    var length: nat;
    var mark := 0;
    if cp < 0x80 {
      length := 1;
    } else if cp < 0x800 {
      length := 2;
      mark := 0xC0;
    } else if cp < 0x10000 {
      length := 3;
      mark := 0xE0;
    } else {
      length := 4;
      mark := 0xF0;
    }
    ghost var bytes := Utf8(cp);
    Utf8Parts(cp);
    var codepoint := cp;
    var pos := length - 1;
    while pos > 0
      invariant 0 <= pos < length
      invariant codepoint == Shifted(cp, length - 1 - pos)
      invariant forall k :: pos < k < length ==> out[at + k] == bytes[k]
      invariant forall k :: 0 <= k < out.Length && !(at <= k < at + length) ==> out[k] == old(out[k])
    {
      out[at + pos] := Continuation(codepoint);
      codepoint := Shr6(codepoint);
      pos := pos - 1;
    }
    if length > 1 {
      out[at] := (codepoint + mark) as uchar;
    } else {
      out[at] := (codepoint % 0x80) as uchar;
    }
  }

  /** The bytes of `cp`, each from the code point shifted as far as its position asks for. */
  lemma Utf8Parts(cp: nat)
    requires cp <= 0x10FFFF
    ensures var n := Utf8Length(cp);
            && Shifted(cp, n - 1) < [0x80, 0x20, 0x10, 0x08][n - 1]
            && Utf8(cp)[0] as int == Shifted(cp, n - 1) + [0, 0xC0, 0xE0, 0xF0][n - 1]
    ensures forall k :: 0 < k < Utf8Length(cp) ==> Utf8(cp)[k] == Continuation(Shifted(cp, Utf8Length(cp) - 1 - k))
  {
    ShiftedIs(cp);
    LeadFits(cp);
  }

  lemma ShiftedIs(cp: nat)
    ensures Shifted(cp, 0) == cp && Shifted(cp, 1) == Shr6(cp)
    ensures Shifted(cp, 2) == Shr6(Shr6(cp)) && Shifted(cp, 3) == Shr6(Shr6(Shr6(cp)))
  {
    assert Shifted(cp, 3) == Shr6(Shifted(cp, 2));
  }

  lemma LeadFits(cp: nat)
    requires cp <= 0x10FFFF
    ensures cp < 0x800 ==> Shr6(cp) < 0x20
    ensures cp < 0x10000 ==> Shr6(Shr6(cp)) < 0x10
    ensures Shr6(Shr6(Shr6(cp))) < 0x08
  {}

  /**
   Writes the bytes of the escape at `p` into `out` from position `at` on.
   Returns how many input characters were consumed, 0 for a rejected escape,
   and the position behind the bytes written. It needs room only for the bytes
   the escape stands for, and touches nothing else.
   */
  method Utf16LiteralToUtf8(s: text, p: nat, end: nat, out: array<uchar>, at: nat) returns (consumed: nat, newAt: nat)
    requires p <= end <= |s|
    requires at <= out.Length
    requires var l := DecodeEscape(s, p, end); l.Literal? ==> at + Utf8Length(l.codepoint) <= out.Length
    modifies out
    ensures var l := DecodeEscape(s, p, end);
            if l.Invalid? then consumed == 0 && newAt == at && out[..] == old(out[..])
            else consumed == l.consumed && newAt == at + Utf8Length(l.codepoint)
                 && out[..at] == old(out[..at])
                 && out[at..newAt] == Utf8(l.codepoint)
  {
    hide DecodeEscape, Utf8;
    var codepoint;
    consumed, codepoint := ReadEscape(s, p, end);
    if consumed == 0 {
      return 0, at;
    }
    WriteUtf8(codepoint, out, at);
    newAt := at + Utf8Length(codepoint);
  }

  // ---------------------------------------------------------------------
  // What is looked at
  // ---------------------------------------------------------------------

  ghost predicate AgreeTo(s: text, t: text, end: nat) {
    end <= |s| && end <= |t| && forall i :: 0 <= i < end ==> s[i] == t[i]
  }

  lemma Hex4Agrees(s: text, t: text, at: nat, end: nat)
    requires AgreeTo(s, t, end) && at + 4 <= end
    ensures Hex4(s, at) == Hex4(t, at)
  {
    if AllHex(s, at, at + 4) {
      PositionalAgrees(s, t, at, 4, end);
    } else {
      var k :| at <= k < at + 4 && !IsHex(s[k]);
      assert !IsHex(t[k]);
    }
  }

  lemma {:induction false} PositionalAgrees(s: text, t: text, at: nat, n: nat, end: nat)
    requires AgreeTo(s, t, end) && at + n <= end && AllHex(s, at, at + n)
    ensures AllHex(t, at, at + n) && Positional(s, at, n) == Positional(t, at, n)
  {
    if n > 0 { PositionalAgrees(s, t, at, n - 1, end); }
  }

  /** Nothing behind the end of the content influences how an escape is read. */
  lemma DecodeAgrees(s: text, t: text, p: nat, end: nat)
    requires AgreeTo(s, t, end) && p <= end
    ensures DecodeEscape(s, p, end) == DecodeEscape(t, p, end)
  {
    hide Hex4;
    if end - p >= 6 {
      Hex4Agrees(s, t, p + 2, end);
      if end - p >= 12 {
        Hex4Agrees(s, t, p + 8, end);
      }
    }
  }
}
