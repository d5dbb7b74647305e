/**
 JSON strings (components/dsp_json/cjson/cJSON.c, parse_string and
 print_string_ptr): what a quoted text means, how a string is quoted, and the
 two-pass reader with its pre-computed output buffer.
 */
module JsonString {
  import opened CText
  import opened Utf16

  // ---------------------------------------------------------------------
  // What a quoted text means
  // ---------------------------------------------------------------------

  /** Where the closing quote is: the first quote that no backslash hides. */
  function ScanEnd(s: text, i: nat): (e: Option<nat>)
    requires i <= |s|
    ensures e.Some? ==> i <= e.value < |s| && s[e.value] == QUOTE
    decreases |s| - i
  {
    if i == |s| then None
    else if s[i] == QUOTE then Some(i)
    else if s[i] != BACKSLASH then ScanEnd(s, i + 1)
    else if i + 1 == |s| then None
    else ScanEnd(s, i + 2)
  }

  /** The character a one-letter escape stands for. */
  function Letter(c: uchar): Option<uchar> {
    match c
    case 0x62 => Some(0x08)
    case 0x66 => Some(0x0C)
    case 0x6E => Some(0x0A)
    case 0x72 => Some(0x0D)
    case 0x74 => Some(0x09)
    case 0x22 => Some(0x22)
    case 0x5C => Some(0x5C)
    case 0x2F => Some(0x2F)
    case _ => None
  }

  ghost function Prepend(a: text, b: Option<text>): Option<text> {
    match b
    case None => None
    case Some(t) => Some(a + t)
  }

  lemma PrependNothing(b: Option<text>)
    ensures Prepend([], b) == b
  {
    if b.Some? { assert [] + b.value == b.value; }
  }

  lemma PrependTwice(a: text, b: text, c: Option<text>)
    ensures Prepend(a, Prepend(b, c)) == Prepend(a + b, c)
  {
    if c.Some? { assert a + (b + c.value) == (a + b) + c.value; }
  }

  /** The bytes that the content from `p` up to the closing quote at `e` stands for. */
  ghost function Unescape(s: text, p: nat, e: nat): Option<text>
    requires e < |s|
    decreases e - p
  {
    if p >= e then Some([])
    else if s[p] != BACKSLASH then Prepend([s[p]], Unescape(s, p + 1, e))
    else if s[p + 1] == LOWER_U then
      var l := DecodeEscape(s, p, e);
      if l.Invalid? then None else Prepend(Utf8(l.codepoint), Unescape(s, p + l.consumed, e))
    else
      match Letter(s[p + 1])
      case None => None
      case Some(c) => Prepend([c], Unescape(s, p + 2, e))
  }

  datatype StringResult = NoString | Quoted(value: text, after: nat)

  /** The C string denoted by the quoted text at `at`, and the position behind its closing quote. */
  ghost function StringAt(s: text, at: nat): (r: StringResult)
    requires at < |s|
    ensures r.Quoted? ==> at < r.after <= |s|
  {
    if s[at] != QUOTE || ScanEnd(s, at + 1).None? then NoString
    else
      var e := ScanEnd(s, at + 1).value;
      match Unescape(s, at + 1, e)
      case None => NoString
      case Some(bytes) => Quoted(CStr(bytes), e + 1)
  }

  // ---------------------------------------------------------------------
  // The size estimate of the first pass
  // ---------------------------------------------------------------------

  /** The first pass, started at `from`, takes the character at `p` for the start of an escape. */
  ghost predicate Opens(s: text, from: nat, p: nat)
    requires from <= p < |s|
    decreases p - from
  {
    s[p] == BACKSLASH && (p == from || !Opens(s, from, p - 1))
  }

  /** The first pass is not in the middle of an escape when it comes to `p`. */
  ghost predicate Aligned(s: text, from: nat, p: nat)
    requires from <= p <= |s|
  {
    p == from || !Opens(s, from, p - 1)
  }

  /** How many characters in front of `p` the first pass did not skip. */
  ghost function Kept(s: text, from: nat, p: nat): nat
    requires from <= p <= |s|
    decreases p - from
  {
    if p == from then 0 else Kept(s, from, p - 1) + if Opens(s, from, p - 1) then 0 else 1
  }

  /** Of two neighbouring characters at least one is kept, whatever they are. */
  lemma KeptInPairs(s: text, from: nat, p: nat)
    requires from <= p && p + 2 <= |s|
    ensures Kept(s, from, p + 2) >= Kept(s, from, p) + 1
  {
    assert Kept(s, from, p + 2) == Kept(s, from, p + 1) + if Opens(s, from, p + 1) then 0 else 1;
  }

  lemma KeptBySix(s: text, from: nat, p: nat)
    requires from <= p && p + 6 <= |s|
    ensures Kept(s, from, p + 6) >= Kept(s, from, p) + 3
  {
    KeptInPairs(s, from, p);
    KeptInPairs(s, from, p + 2);
    KeptInPairs(s, from, p + 4);
  }

  /** An escape never produces more bytes than the first pass kept for it, however it is aligned. */
  lemma EscapeFits(s: text, from: nat, p: nat, e: nat)
    requires from <= p <= e < |s|
    requires DecodeEscape(s, p, e).Literal?
    ensures var l := DecodeEscape(s, p, e);
            Kept(s, from, p) + Utf8Length(l.codepoint) <= Kept(s, from, p + l.consumed)
  {
    KeptBySix(s, from, p);
    if DecodeEscape(s, p, e).consumed == 12 {
      KeptBySix(s, from, p + 6);
    }
  }

  lemma {:induction false} KeptMonotone(s: text, from: nat, p: nat, q: nat)
    requires from <= p <= q <= |s|
    ensures Kept(s, from, p) <= Kept(s, from, q)
    decreases q - p
  {
    if p < q { KeptMonotone(s, from, p, q - 1); }
  }

  // ---------------------------------------------------------------------
  // The reader
  // ---------------------------------------------------------------------

  /**
   The first pass: finds the closing quote and counts the skipped characters.
   `e == |s|` reports a string that does not end.
   */
  method MeasureString(s: text, from: nat) returns (e: nat, skipped: nat)
    requires from <= |s|
    ensures from <= e <= |s|
    ensures if ScanEnd(s, from).None? then e == |s| else e == ScanEnd(s, from).value
    ensures e < |s| ==> e - from - skipped == Kept(s, from, e) && Aligned(s, from, e)
  {
    e := from;
    skipped := 0;
    while e < |s| && s[e] != QUOTE
      invariant from <= e <= |s|
      invariant ScanEnd(s, e) == ScanEnd(s, from)
      invariant e - from - skipped == Kept(s, from, e)
      invariant Aligned(s, from, e)
    {
      if s[e] == BACKSLASH {
        if e + 1 >= |s| {
          return |s|, skipped;
        }
        skipped := skipped + 1;
        e := e + 1;
        assert Opens(s, from, e - 1) && !Opens(s, from, e);
      }
      e := e + 1;
    }
  }

  /** What is kept up to position `p`, which may have stepped over the closing quote at `e`. */
  ghost function KeptTo(s: text, from: nat, p: nat, e: nat): nat
    requires from <= p && from <= e < |s|
  {
    Kept(s, from, if p <= e then p else e)
  }

  /** Consuming one plain character, or one two-character escape, pays for one byte of output. */
  lemma OneByteIsPaid(s: text, from: nat, p: nat, e: nat)
    requires from <= p < e < |s|
    requires Aligned(s, from, e)
    ensures KeptTo(s, from, p, e) + 1 <= Kept(s, from, e)
    ensures s[p] != BACKSLASH ==> KeptTo(s, from, p, e) + 1 <= KeptTo(s, from, p + 1, e)
    ensures KeptTo(s, from, p, e) + 1 <= KeptTo(s, from, p + 2, e)
  {
    if p + 2 <= e {
      KeptInPairs(s, from, p);
      KeptMonotone(s, from, p + 2, e);
    }
  }

  lemma EscapeIsPaid(s: text, from: nat, p: nat, e: nat)
    requires from <= p < e < |s|
    requires DecodeEscape(s, p, e).Literal?
    ensures var l := DecodeEscape(s, p, e);
            && KeptTo(s, from, p, e) + Utf8Length(l.codepoint) <= KeptTo(s, from, p + l.consumed, e)
            && KeptTo(s, from, p + l.consumed, e) <= Kept(s, from, e)
  {
    EscapeFits(s, from, p, e);
    KeptMonotone(s, from, p + DecodeEscape(s, p, e).consumed, e);
  }

  /**
   The second pass: writes what the content between `from` and the closing
   quote at `e` stands for. A buffer with room for the kept characters and one
   more byte is enough for every input, well-formed or not.
   */
  method UnescapeInto(s: text, from: nat, e: nat, output: array<uchar>) returns (ok: bool, o: nat)
    requires from <= e < |s|
    requires Aligned(s, from, e)
    requires output.Length > Kept(s, from, e)
    modifies output
    ensures ok <==> Unescape(s, from, e).Some?
    ensures ok ==> o <= Kept(s, from, e) && output[..o] == Unescape(s, from, e).value
  {
    hide Kept, Opens, KeptTo, DecodeEscape, Utf8, Prepend, Letter;
    var p := from;
    o := 0;
    KeptToBound(s, from, p, e);
    PrependNothing(Unescape(s, from, e));
    assert output[..0] == [];
    while p < e
      invariant from <= p
      invariant 0 <= o <= KeptTo(s, from, p, e) <= Kept(s, from, e)
      invariant Unescape(s, from, e) == Prepend(output[..o], Unescape(s, p, e))
      decreases e - p
    {
      ghost var written := output[..o];
      OneByteIsPaid(s, from, p, e);
      if s[p] != BACKSLASH {
        PrependTwice(written, [s[p]], Unescape(s, p + 1, e));
        output[o] := s[p];
        assert output[..o + 1] == written + [s[p]];
        o := o + 1;
        p := p + 1;
      } else if s[p + 1] == LOWER_U {
        ghost var l := DecodeEscape(s, p, e);
        if l.Literal? {
          EscapeIsPaid(s, from, p, e);
          PrependTwice(written, Utf8(l.codepoint), Unescape(s, p + l.consumed, e));
        }
        var consumed, next := Utf16LiteralToUtf8(s, p, e, output, o);
        if consumed == 0 {
          PrependNone(written);
          return false, o;
        }
        assert output[..next] == written + Utf8(l.codepoint);
        o := next;
        p := p + consumed;
      } else {
        var letter := Letter(s[p + 1]);
        if letter.None? {
          PrependNone(written);
          return false, o;
        }
        PrependTwice(written, [letter.value], Unescape(s, p + 2, e));
        output[o] := letter.value;
        assert output[..o + 1] == written + [letter.value];
        o := o + 1;
        p := p + 2;
      }
      KeptToBound(s, from, p, e);
    }
    PrependEmpty(output[..o]);
    ok := true;
  }

  lemma KeptToBound(s: text, from: nat, p: nat, e: nat)
    requires from <= p && from <= e < |s|
    ensures KeptTo(s, from, p, e) <= Kept(s, from, e)
  {
    if p <= e { KeptMonotone(s, from, p, e); }
  }

  lemma PrependNone(a: text)
    ensures Prepend(a, None) == None
  {}

  lemma PrependEmpty(a: text)
    ensures Prepend(a, Some([])) == Some(a)
  {
    assert a + [] == a;
  }

  /**
   Both passes. The output buffer is as large as the source allocates it: the
   kept characters, a terminator, and one spare byte.
   */
  method ParseString(s: text, at: nat) returns (r: StringResult)
    requires at < |s|
    ensures r == StringAt(s, at)
  {
    hide Unescape, Opens;
    if s[at] != QUOTE {
      return NoString;
    }
    var e, skipped := MeasureString(s, at + 1);
    if e >= |s| {
      return NoString;
    }
    var allocationLength := e - at - skipped;
    var output := new uchar[allocationLength + 1];
    var ok, o := UnescapeInto(s, at + 1, e, output);
    if !ok {
      return NoString;
    }
    output[o] := NUL;
    CStrIgnoresRest(output[..o], output[o + 1..]);
    assert output[..] == output[..o] + [NUL] + output[o + 1..];
    r := Quoted(CStr(output[..]), e + 1);
  }

  /** A terminator behind the bytes, and anything after it, does not change the C string. */
  lemma {:induction false} CStrIgnoresRest(a: text, rest: text)
    ensures CStr(a + [NUL] + rest) == CStr(a)
  {
    if a == [] || a[0] == NUL {
      assert (a + [NUL] + rest)[0] == NUL;
    } else {
      assert (a + [NUL] + rest)[1..] == a[1..] + [NUL] + rest;
      CStrIgnoresRest(a[1..], rest);
    }
  }

  // ---------------------------------------------------------------------
  // Where the two passes split the text differently
  // ---------------------------------------------------------------------

  /** How many backslashes end the stretch from `lo` to `hi`. */
  function BackslashRun(s: text, lo: nat, hi: nat): nat
    requires lo <= hi <= |s|
    decreases hi - lo
  {
    if lo == hi || s[hi - 1] != BACKSLASH then 0 else 1 + BackslashRun(s, lo, hi - 1)
  }

  lemma {:induction false} AlignedAfter(s: text, from: nat, lo: nat, hi: nat)
    requires from <= lo <= hi <= |s| && Aligned(s, from, lo)
    ensures Aligned(s, from, hi) <==> BackslashRun(s, lo, hi) % 2 == 0
    decreases hi - lo
  {
    if lo < hi { AlignedAfter(s, from, lo, hi - 1); }
  }

  /**
   A hexadecimal escape that both passes begin at `p` leaves them in step
   exactly when the run of backslashes that ends its four digit positions is
   even. Well-formed digits always do; malformed ones, which are accepted, need not.
   */
  lemma EscapeKeepsStep(s: text, from: nat, p: nat, e: nat)
    requires from <= p && p + 6 <= e < |s| && Aligned(s, from, p)
    requires s[p] == BACKSLASH && s[p + 1] == LOWER_U && DecodeEscape(s, p, e).Literal?
    ensures Aligned(s, from, p + DecodeEscape(s, p, e).consumed) <==> BackslashRun(s, p + 2, p + 6) % 2 == 0
  {
    hide Positional;
    assert Opens(s, from, p) && Aligned(s, from, p + 2);
    AlignedAfter(s, from, p + 2, p + 6);
    if DecodeEscape(s, p, e).consumed == 12 {
      assert IsHex(s[p + 5]);
      assert Opens(s, from, p + 6) && Aligned(s, from, p + 8);
      AlignedAfter(s, from, p + 8, p + 12);
      assert IsHex(s[p + 11]);
    }
  }

  /**
   An input on which the passes part: a quoted backslash, `u`, three digits,
   an escaped quote and a letter. The first pass takes the second backslash for
   the start of an escape; the second pass takes it for the fourth digit, reads
   U+0000, and goes on with the quote as a plain character.
   */
  lemma PassesOutOfStep()
    ensures var s: text := [QUOTE, BACKSLASH, LOWER_U, 0x31, 0x32, 0x33, BACKSLASH, QUOTE, 0x78, QUOTE];
            && Opens(s, 1, 6) && !Aligned(s, 1, 7)
            && DecodeEscape(s, 1, 9) == Literal(0, 6) && Unescape(s, 7, 9) == Some([QUOTE, 0x78])
            && StringAt(s, 0) == Quoted([], 10)
  {
    var s: text := [QUOTE, BACKSLASH, LOWER_U, 0x31, 0x32, 0x33, BACKSLASH, QUOTE, 0x78, QUOTE];
    assert !Opens(s, 1, 2) && !Opens(s, 1, 5);
    assert ScanEnd(s, 8) == Some(9) && ScanEnd(s, 5) == Some(9) && ScanEnd(s, 3) == Some(9);
    assert !IsHex(s[6]);
    MalformedDigitsReadAsNul(s, 1, 9);
    PrependEmpty([0x78]);
    assert Unescape(s, 8, 9) == Prepend([0x78], Unescape(s, 9, 9));
    assert [QUOTE] + [0x78] == [QUOTE, 0x78];
    UnescapeHex(s, 1, 9);
  }

  // ---------------------------------------------------------------------
  // What is looked at
  // ---------------------------------------------------------------------

  lemma {:induction false} ScanAgrees(s: text, t: text, p: nat, e: nat)
    requires p <= |s| && p <= |t| && ScanEnd(s, p) == Some(e) && AgreeTo(s, t, e + 1)
    ensures ScanEnd(t, p) == Some(e)
    decreases e - p
  {
    if s[p] != QUOTE {
      ScanAgrees(s, t, if s[p] == BACKSLASH then p + 2 else p + 1, e);
    }
  }

  lemma {:induction false} UnescapeAgrees(s: text, t: text, p: nat, e: nat)
    requires e < |s| && e < |t| && AgreeTo(s, t, e + 1)
    ensures Unescape(s, p, e) == Unescape(t, p, e)
    decreases e - p
  {
    hide DecodeEscape, Letter, Prepend;
    if p < e {
      if s[p] != BACKSLASH {
        UnescapeAgrees(s, t, p + 1, e);
      } else if s[p + 1] == LOWER_U {
        DecodeAgrees(s, t, p, e);
        if DecodeEscape(s, p, e).Literal? {
          UnescapeAgrees(s, t, p + DecodeEscape(s, p, e).consumed, e);
        }
      } else {
        UnescapeAgrees(s, t, p + 2, e);
      }
    }
  }

  /** Reading a string looks at nothing behind its closing quote, for every input. */
  lemma ReadsNoFurther(s: text, t: text, at: nat)
    requires at < |s| && at < |t| && StringAt(s, at).Quoted?
    requires AgreeTo(s, t, StringAt(s, at).after)
    ensures StringAt(t, at) == StringAt(s, at)
  {
    hide Unescape;
    var e := ScanEnd(s, at + 1).value;
    ScanAgrees(s, t, at + 1, e);
    UnescapeAgrees(s, t, at + 1, e);
  }

  // ---------------------------------------------------------------------
  // Quoting
  // ---------------------------------------------------------------------

  function HexDigit(n: nat): uchar
    requires n < 16
  {
    if n < 10 then (0x30 + n) as uchar else (0x61 + n - 10) as uchar
  }

  /** How one character is written inside quotes (section 7 of RFC 8259). */
  function EscapeChar(c: uchar): (t: text)
    ensures t != []
  {
    match c
    case 0x22 => [BACKSLASH, QUOTE]
    case 0x5C => [BACKSLASH, BACKSLASH]
    case 0x08 => [BACKSLASH, 0x62]
    case 0x0C => [BACKSLASH, 0x66]
    case 0x0A => [BACKSLASH, 0x6E]
    case 0x0D => [BACKSLASH, 0x72]
    case 0x09 => [BACKSLASH, 0x74]
    case _ =>
      if c < 32 then [BACKSLASH, LOWER_U, 0x30, 0x30, HexDigit(c as int / 16), HexDigit(c as int % 16)]
      else [c]
  }

  /** The same, spelled out: the seven two-character escapes, then the control characters by their code. */
  lemma EscapeTable(c: uchar)
    ensures EscapeChar(0x22) == Lit("\\\"") && EscapeChar(0x5C) == Lit("\\\\")
    ensures EscapeChar(8) == Lit("\\b") && EscapeChar(9) == Lit("\\t") && EscapeChar(10) == Lit("\\n")
    ensures EscapeChar(12) == Lit("\\f") && EscapeChar(13) == Lit("\\r")
    ensures c < 32 && c != 8 && c != 9 && c != 10 && c != 12 && c != 13 ==>
              EscapeChar(c) == Lit("\\u00") + [Lit("0123456789abcdef")[c / 16], Lit("0123456789abcdef")[c % 16]]
    ensures c >= 32 && c != 0x22 && c != 0x5C ==> EscapeChar(c) == [c]
  {
    hide HexDigit, EscapeChar;
    NamedEscapes();
    PlainOrCode(c);
    if c < 32 {
      HexDigitIs(c as int / 16);
      HexDigitIs(c as int % 16);
    }
  }

  lemma NamedEscapes()
    ensures EscapeChar(0x22) == Lit("\\\"") && EscapeChar(0x5C) == Lit("\\\\")
    ensures EscapeChar(8) == Lit("\\b") && EscapeChar(9) == Lit("\\t") && EscapeChar(10) == Lit("\\n")
    ensures EscapeChar(12) == Lit("\\f") && EscapeChar(13) == Lit("\\r")
  {}

  lemma PlainOrCode(c: uchar)
    ensures c < 32 && c != 8 && c != 9 && c != 10 && c != 12 && c != 13 ==>
              EscapeChar(c) == Lit("\\u00") + [HexDigit(c as int / 16), HexDigit(c as int % 16)]
    ensures c >= 32 && c != 0x22 && c != 0x5C ==> EscapeChar(c) == [c]
  {
    assert Lit("\\u00") == [BACKSLASH, LOWER_U, 0x30, 0x30];
  }

  lemma HexDigitIs(n: nat)
    requires n < 16
    ensures HexDigit(n) == Lit("0123456789abcdef")[n]
  {
    assert Lit("0123456789abcdef")[n] as int == "0123456789abcdef"[n] as int;
  }

  function Escape(str: text): text {
    if str == [] then [] else EscapeChar(str[0]) + Escape(str[1..])
  }

  function Quote(str: text): text {
    [QUOTE] + Escape(str) + [QUOTE]
  }

  lemma {:induction false} EscapeConcat(a: text, b: text)
    ensures Escape(a + b) == Escape(a) + Escape(b)
  {
    if a == [] {
      assert a + b == b;
    } else {
      assert (a + b)[1..] == a[1..] + b;
      EscapeConcat(a[1..], b);
    }
  }

  lemma {:induction false} EscapeNulFree(str: text)
    requires NulFree(str)
    ensures NulFree(Escape(str))
  {
    if str != [] {
      EscapeNulFree(str[1..]);
      assert NulFree(EscapeChar(str[0]));
    }
  }

  predicate IsPlain(c: uchar) {
    c != QUOTE && c != BACKSLASH
  }

  lemma EscapeCharShape(c: uchar)
    ensures var t := EscapeChar(c);
            || (|t| == 1 && t[0] == c && IsPlain(c))
            || (|t| == 2 && t[0] == BACKSLASH)
            || (|t| == 6 && t[0] == BACKSLASH && IsPlain(t[2]) && IsPlain(t[3]) && IsPlain(t[4]) && IsPlain(t[5]))
  {}

  lemma ScanSkipsOne(s: text, p: nat)
    requires p < |s| && IsPlain(s[p])
    ensures ScanEnd(s, p) == ScanEnd(s, p + 1)
  {}

  lemma ScanSkipsTwo(s: text, p: nat)
    requires p + 1 < |s| && s[p] == BACKSLASH
    ensures ScanEnd(s, p) == ScanEnd(s, p + 2)
  {}

  /** The scan passes over one written character. */
  lemma ScanPasses(s: text, p: nat, c: uchar)
    requires At(s, p, EscapeChar(c))
    ensures ScanEnd(s, p) == ScanEnd(s, p + |EscapeChar(c)|)
  {
    hide ScanEnd, EscapeChar, IsPlain;
    var t := EscapeChar(c);
    EscapeCharShape(c);
    assert forall k :: 0 <= k < |t| ==> s[p + k] == t[k];
    assert s[p] == t[0];
    if |t| == 1 {
      ScanSkipsOne(s, p);
    } else {
      ScanSkipsTwo(s, p);
      if |t| == 6 {
        assert s[p + 2] == t[2] && s[p + 3] == t[3] && s[p + 4] == t[4] && s[p + 5] == t[5];
        ScanSkipsOne(s, p + 2);
        ScanSkipsOne(s, p + 3);
        ScanSkipsOne(s, p + 4);
        ScanSkipsOne(s, p + 5);
      }
    }
  }

  lemma EscapeCharMeaning(c: uchar)
    ensures var t := EscapeChar(c);
            && (|t| == 2 ==> t[1] != LOWER_U && Letter(t[1]) == Some(c))
            && (|t| == 6 ==> c < 32 && t[1] == LOWER_U && t[2] == t[3] == 0x30
                             && t[4] == HexDigit(c as int / 16) && t[5] == HexDigit(c as int % 16))
  {}

  lemma UnescapePlain(s: text, p: nat, e: nat)
    requires p < e < |s| && s[p] != BACKSLASH
    ensures Unescape(s, p, e) == Prepend([s[p]], Unescape(s, p + 1, e))
  {}

  lemma UnescapeLetter(s: text, p: nat, e: nat, c: uchar)
    requires p < e < |s| && s[p] == BACKSLASH && s[p + 1] != LOWER_U && Letter(s[p + 1]) == Some(c)
    ensures Unescape(s, p, e) == Prepend([c], Unescape(s, p + 2, e))
  {}

  lemma UnescapeHex(s: text, p: nat, e: nat)
    requires p < e < |s| && s[p] == BACKSLASH && s[p + 1] == LOWER_U && DecodeEscape(s, p, e).Literal?
    ensures var l := DecodeEscape(s, p, e);
            Unescape(s, p, e) == Prepend(Utf8(l.codepoint), Unescape(s, p + l.consumed, e))
  {}

  /** Reading one written character gives it back. */
  lemma UnescapesOne(s: text, p: nat, e: nat, c: uchar)
    requires c != NUL
    requires At(s, p, EscapeChar(c)) && p + |EscapeChar(c)| <= e < |s|
    ensures Unescape(s, p, e) == Prepend([c], Unescape(s, p + |EscapeChar(c)|, e))
  {
    hide Prepend, Unescape, EscapeChar, Letter, DecodeEscape, HexDigit;
    var t := EscapeChar(c);
    EscapeCharShape(c);
    EscapeCharMeaning(c);
    assert forall k :: 0 <= k < |t| ==> s[p + k] == t[k];
    assert s[p] == t[0];
    if |t| == 1 {
      UnescapePlain(s, p, e);
    } else if |t| == 2 {
      assert s[p + 1] == t[1];
      UnescapeLetter(s, p, e, c);
    } else {
      assert s[p + 1] == t[1] && s[p + 2] == t[2] && s[p + 3] == t[3] && s[p + 4] == t[4] && s[p + 5] == t[5];
      ControlIsRead(s, p, e, c);
      UnescapeHex(s, p, e);
    }
  }

  lemma ControlIsRead(s: text, p: nat, e: nat, c: uchar)
    requires c < 32
    requires p + 6 <= e <= |s|
    requires s[p + 2] == 0x30 && s[p + 3] == 0x30
    requires s[p + 4] == HexDigit(c as int / 16) && s[p + 5] == HexDigit(c as int % 16)
    ensures DecodeEscape(s, p, e) == Literal(c as int, 6) && Utf8(c as int) == [c]
  {
    assert AllHex(s, p + 2, p + 6);
    assert Positional(s, p + 2, 0) == 0;
    assert Positional(s, p + 2, 1) == 0;
    assert Positional(s, p + 2, 2) == 0;
    assert Positional(s, p + 2, 3) == c as int / 16;
    assert Positional(s, p + 2, 4) == c as int;
  }

  lemma {:induction false} ScanFindsQuote(s: text, p: nat, str: text)
    requires At(s, p, Escape(str)) && p + |Escape(str)| < |s| && s[p + |Escape(str)|] == QUOTE
    ensures ScanEnd(s, p) == Some(p + |Escape(str)|)
    decreases str
  {
    hide EscapeChar;
    if str != [] {
      var t := EscapeChar(str[0]);
      var rest := Escape(str[1..]);
      AtSplit(s, p, t, rest);
      ScanPasses(s, p, str[0]);
      ScanFindsQuote(s, p + |t|, str[1..]);
    }
  }

  lemma {:induction false} UnescapesAll(s: text, p: nat, e: nat, str: text)
    requires NulFree(str)
    requires At(s, p, Escape(str)) && p + |Escape(str)| == e < |s|
    ensures Unescape(s, p, e) == Some(str)
    decreases str
  {
    hide EscapeChar, Unescape;
    if str == [] {
      UnescapeNothing(s, p);
    } else {
      var t := EscapeChar(str[0]);
      AtSplit(s, p, t, Escape(str[1..]));
      UnescapesOne(s, p, e, str[0]);
      UnescapesAll(s, p + |t|, e, str[1..]);
      assert [str[0]] + str[1..] == str;
    }
  }

  lemma UnescapeNothing(s: text, p: nat)
    requires p < |s|
    ensures Unescape(s, p, p) == Some([])
  {}

  /**
   Round trip: wherever a quoted string stands in a text, reading it there
   gives the string back and stops just behind the closing quote.
   */
  lemma QuoteRoundTrip(s: text, at: nat, str: text)
    requires NulFree(str)
    requires At(s, at, Quote(str))
    ensures StringAt(s, at) == Quoted(str, at + |Quote(str)|)
  {
    hide Escape, Unescape, ScanEnd;
    AtSplit(s, at, [QUOTE], Escape(str) + [QUOTE]);
    assert Quote(str) == [QUOTE] + (Escape(str) + [QUOTE]);
    AtSplit(s, at + 1, Escape(str), [QUOTE]);
    assert s[at] == QUOTE;
    var e := at + 1 + |Escape(str)|;
    assert s[e] == QUOTE;
    ScanFindsQuote(s, at + 1, str);
    UnescapesAll(s, at + 1, e, str);
    CStrOfTerminated(str, []);
  }
}
