/**
 The texts of RFC 8259 and what the parser makes of them: a text that the
 grammar derives, with any white space, any spelling of characters and any form
 of numbers, parses to the value it denotes, exactly when it does not nest too
 deep and no surrogate among its escapes stands alone. A syntax tree records how
 a text is spelled.
 */
module JsonGrammar {
  import opened CText
  import opened Utf16
  import opened JsonString
  import opened JsonNumber
  import opened JsonValue
  import opened JsonParse
  import opened JsonRoundTrip

  // ---------------------------------------------------------------------
  // Strings (section 7)
  // ---------------------------------------------------------------------

  /** A character itself, a two-character escape, or the hexadecimal escape of a code unit. */
  datatype Piece = Raw(c: uchar) | Short(letter: uchar) | Unicode(unit: nat, escape: text)

  /** The character behind a backslash, and what the two stand for. */
  function ShortMeaning(l: uchar): Option<uchar> {
    if l == '\"' as uchar then Some('\"' as uchar)
    else if l == '\\' as uchar then Some('\\' as uchar)
    else if l == '/' as uchar then Some('/' as uchar)
    else if l == 'b' as uchar then Some(8)
    else if l == 'f' as uchar then Some(12)
    else if l == 'n' as uchar then Some(10)
    else if l == 'r' as uchar then Some(13)
    else if l == 't' as uchar then Some(9)
    else None
  }

  /** The parser's table is that of section 7. */
  lemma LettersAgree(l: uchar)
    ensures Letter(l) == ShortMeaning(l) && (Letter(l).Some? ==> l != LOWER_U)
  {}

  predicate PieceOk(p: Piece) {
    match p
    case Raw(c) => c >= 32 && c != '\"' as uchar && c != '\\' as uchar
    case Short(l) => ShortMeaning(l).Some?
    case Unicode(u, t) => u <= 0xFFFF && |t| == 6 && UnitEscape(t, 0, 6, u)
  }

  function PieceText(p: Piece): text {
    match p
    case Raw(c) => [c]
    case Short(l) => [BACKSLASH, l]
    case Unicode(_, t) => t
  }

  predicate IsHigh(p: Piece) {
    PieceOk(p) && p.Unicode? && 0xD800 <= p.unit <= 0xDBFF
  }

  predicate IsLow(p: Piece) {
    PieceOk(p) && p.Unicode? && 0xDC00 <= p.unit <= 0xDFFF
  }

  /** No surrogate stands alone: a high one has a low one behind it, and a low one a high one in front. */
  ghost predicate Paired(ps: seq<Piece>) {
    && (forall i {:trigger IsHigh(ps[i])} :: 0 <= i < |ps| && IsHigh(ps[i]) ==> i + 1 < |ps| && IsLow(ps[i + 1]))
    && (forall i {:trigger IsLow(ps[i])} :: 0 <= i < |ps| && IsLow(ps[i]) ==> i > 0 && IsHigh(ps[i - 1]))
  }

  lemma PairedStep(ps: seq<Piece>)
    requires ps != []
    ensures Paired(ps) <==>
            if IsLow(ps[0]) then false
            else if IsHigh(ps[0]) then |ps| > 1 && IsLow(ps[1]) && Paired(ps[2..])
            else Paired(ps[1..])
  {
    hide PieceOk, Hex4;
    if IsHigh(ps[0]) {
      if |ps| > 1 && IsLow(ps[1]) {
        PairedBehind(ps, 2);
      }
    } else if !IsLow(ps[0]) {
      PairedBehind(ps, 1);
    }
  }

  /** Where no pair is cut, being paired is decided on both sides of the cut. */
  lemma PairedBehind(ps: seq<Piece>, k: nat)
    requires 0 < k <= |ps| && !IsHigh(ps[k - 1]) && Paired(ps[..k])
    ensures Paired(ps) <==> Paired(ps[k..])
  {
    hide PieceOk, Hex4, IsHigh, IsLow;
    var rest := ps[k..];
    assert forall i :: 0 <= i < |rest| ==> rest[i] == ps[i + k];
    assert forall i :: 0 <= i < k ==> ps[..k][i] == ps[i];
    if Paired(rest) {
      forall i | 0 <= i < |ps| && IsHigh(ps[i]) ensures i + 1 < |ps| && IsLow(ps[i + 1]) {
        if i < k { assert IsHigh(ps[..k][i]); } else { assert IsHigh(rest[i - k]); }
      }
      forall i | 0 <= i < |ps| && IsLow(ps[i]) ensures i > 0 && IsHigh(ps[i - 1]) {
        if i < k { assert IsLow(ps[..k][i]); } else { assert IsLow(rest[i - k]); }
      }
    }
    if Paired(ps) {
      forall i | 0 <= i < |rest| && IsHigh(rest[i]) ensures i + 1 < |rest| && IsLow(rest[i + 1]) {
        assert IsHigh(ps[i + k]);
      }
      forall i | 0 <= i < |rest| && IsLow(rest[i]) ensures i > 0 && IsHigh(rest[i - 1]) {
        assert IsLow(ps[i + k]);
      }
    }
  }

  /** The bytes of a piece that is no surrogate. */
  ghost function PieceBytes(p: Piece): text
    requires PieceOk(p)
  {
    match p
    case Raw(c) => [c]
    case Short(l) => [ShortMeaning(l).value]
    case Unicode(u, _) => Utf8(u)
  }

  /** The character that a surrogate pair stands for (section 2.2 of RFC 2781). */
  function Joined(high: nat, low: nat): (cp: nat)
    requires 0xD800 <= high <= 0xDBFF && 0xDC00 <= low <= 0xDFFF
    ensures 0x10000 <= cp <= 0x10FFFF
  {
    0x10000 + (high - 0xD800) * 0x400 + (low - 0xDC00)
  }

  ghost predicate PiecesOk(ps: seq<Piece>) {
    forall i :: 0 <= i < |ps| ==> PieceOk(ps[i])
  }

  function PiecesText(ps: seq<Piece>): text {
    if ps == [] then [] else PieceText(ps[0]) + PiecesText(ps[1..])
  }

  ghost function PiecesBytes(ps: seq<Piece>): text
    requires PiecesOk(ps) && Paired(ps)
    decreases |ps|
  {
    if ps == [] then []
    else
      PairedStep(ps);
      if IsHigh(ps[0]) then Utf8(Joined(ps[0].unit, ps[1].unit)) + PiecesBytes(ps[2..])
      else PieceBytes(ps[0]) + PiecesBytes(ps[1..])
  }

  function QuotedText(ps: seq<Piece>): text {
    [QUOTE] + (PiecesText(ps) + [QUOTE])
  }

  /** The C string that a quoted text stands for: a U+0000 in it ends it. With a lone surrogate it stands for none. */
  ghost function StringMeaning(ps: seq<Piece>): text
    requires PiecesOk(ps)
  {
    if Paired(ps) then CStr(PiecesBytes(ps)) else []
  }

  /** An escape spells the same wherever it stands. */
  lemma EscapeMoved(s: text, p: nat, pc: Piece, end: nat)
    requires PieceOk(pc) && pc.Unicode? && At(s, p, pc.escape) && p + 6 <= end <= |s|
    ensures UnitEscape(s, p, end, pc.unit) && EscapeAt(s, p, end) && Hex4(s, p + 2) == pc.unit
  {
    hide Hex4, SpellsDigit;
    var t := pc.escape;
    assert forall j :: 0 <= j < |t| ==> s[p + j] == t[j];
    assert s[p + 0] == t[0] && s[p + 1] == t[1] && s[p + 2] == t[2];
    assert s[p + 3] == t[3] && s[p + 4] == t[4] && s[p + 5] == t[5];
    UnitEscapeIsRead(s, p, end, pc.unit);
  }

  lemma PlainHex(s: text, p: nat)
    requires p + 4 <= |s| && AllHex(s, p, p + 4)
    ensures ScanEnd(s, p) == ScanEnd(s, p + 4)
  {
    hide ScanEnd;
    ScanSkipsOne(s, p);
    ScanSkipsOne(s, p + 1);
    ScanSkipsOne(s, p + 2);
    ScanSkipsOne(s, p + 3);
  }

  /** The search for the closing quote passes over one piece. */
  lemma ScanPassesPiece(s: text, p: nat, pc: Piece)
    requires PieceOk(pc) && At(s, p, PieceText(pc))
    ensures ScanEnd(s, p) == ScanEnd(s, p + |PieceText(pc)|)
  {
    hide ScanEnd, Hex4, ShortMeaning, UnitEscape;
    var t := PieceText(pc);
    assert forall j :: 0 <= j < |t| ==> s[p + j] == t[j];
    match pc
    case Raw(c) =>
      assert s[p] == t[0];
      ScanSkipsOne(s, p);
    case Short(l) =>
      assert s[p] == t[0];
      ScanSkipsTwo(s, p);
    case Unicode(_, _) =>
      EscapeMoved(s, p, pc, |s|);
      ScanSkipsTwo(s, p);
      PlainHex(s, p + 2);
  }

  /** Reading one piece that is no surrogate yields its bytes. */
  lemma UnescapesPiece(s: text, p: nat, e: nat, pc: Piece)
    requires PieceOk(pc) && !IsHigh(pc) && !IsLow(pc)
    requires At(s, p, PieceText(pc)) && p + |PieceText(pc)| <= e < |s|
    ensures Unescape(s, p, e) == Prepend(PieceBytes(pc), Unescape(s, p + |PieceText(pc)|, e))
  {
    hide Unescape, Prepend, DecodeEscape, Hex4, Utf8, Letter, ShortMeaning, UnitEscape;
    var t := PieceText(pc);
    assert forall j :: 0 <= j < |t| ==> s[p + j] == t[j];
    match pc
    case Raw(c) =>
      assert s[p] == t[0];
      UnescapePlain(s, p, e);
    case Short(l) =>
      assert s[p] == t[0] && s[p + 1] == t[1];
      LettersAgree(l);
      UnescapeLetter(s, p, e, Letter(l).value);
    case Unicode(_, _) =>
      EscapeMoved(s, p, pc, e);
      SpelledIsRead(s, p, e, pc.unit);
      UnescapeHex(s, p, e);
  }

  /** Reading a surrogate pair yields the bytes of its character. */
  lemma UnescapesPair(s: text, p: nat, e: nat, high: Piece, low: Piece)
    requires IsHigh(high) && IsLow(low)
    requires At(s, p, PieceText(high)) && At(s, p + 6, PieceText(low)) && p + 12 <= e < |s|
    ensures Unescape(s, p, e) == Prepend(Utf8(Joined(high.unit, low.unit)), Unescape(s, p + 12, e))
  {
    hide Unescape, Prepend, DecodeEscape, Hex4, Utf8;
    EscapeMoved(s, p, high, e);
    EscapeMoved(s, p + 6, low, e);
    JoinedUnits(high.unit, low.unit);
    SpelledIsRead(s, p, e, Joined(high.unit, low.unit));
    UnescapeHex(s, p, e);
  }

  lemma JoinedUnits(high: nat, low: nat)
    requires 0xD800 <= high <= 0xDBFF && 0xDC00 <= low <= 0xDFFF
    ensures Utf16Units(Joined(high, low)) == [high, low]
  {
    SurrogateJoins(high, low);
  }

  /** A lone surrogate is rejected. */
  lemma LoneIsRejected(s: text, p: nat, e: nat, ps: seq<Piece>)
    requires PiecesOk(ps) && ps != [] && At(s, p, PiecesText(ps)) && p + |PiecesText(ps)| == e < |s|
    requires IsLow(ps[0]) || (IsHigh(ps[0]) && !(|ps| > 1 && IsLow(ps[1])))
    ensures Unescape(s, p, e) == None
  {
    hide Unescape, DecodeEscape, Hex4, PiecesText;
    var rest := PiecesText(ps[1..]);
    FirstPiece(ps);
    AtSplit(s, p, PieceText(ps[0]), rest);
    EscapeMoved(s, p, ps[0], e);
    if EscapeAt(s, p + 6, e) {
      assert |rest| >= 6;
      SecondPieceIsEscape(s, p + 6, e, ps[1..]);
    }
    ReadIsSpelled(s, p, e);
    UnescapeInvalid(s, p, e);
  }

  lemma FirstPiece(ps: seq<Piece>)
    requires ps != []
    ensures PiecesText(ps) == PieceText(ps[0]) + PiecesText(ps[1..])
  {}

  /** Where the pieces start with a complete escape, their first one is that escape. */
  lemma SecondPieceIsEscape(s: text, p: nat, e: nat, ps: seq<Piece>)
    requires PiecesOk(ps) && At(s, p, PiecesText(ps)) && p + |PiecesText(ps)| == e < |s|
    requires EscapeAt(s, p, e)
    ensures ps != [] && ps[0].Unicode? && Hex4(s, p + 2) == ps[0].unit
  {
    hide Hex4, PiecesText;
    if ps == [] {
      assert PiecesText(ps) == [] by { NoPieces(); }
    } else {
      FirstPiece(ps);
      var t := PieceText(ps[0]);
      AtSplit(s, p, t, PiecesText(ps[1..]));
      assert forall j :: 0 <= j < |t| ==> s[p + j] == t[j];
      assert s[p + 0] == t[0] && (|t| > 1 ==> s[p + 1] == t[1]);
      assert PieceOk(ps[0]);
      match ps[0]
      case Raw(_) =>
      case Short(_) =>
      case Unicode(_, _) => EscapeMoved(s, p, ps[0], e);
    }
  }

  lemma NoPieces()
    ensures PiecesText([]) == []
  {}

  lemma UnescapeInvalid(s: text, p: nat, e: nat)
    requires p < e < |s| && s[p] == BACKSLASH && s[p + 1] == LOWER_U && DecodeEscape(s, p, e).Invalid?
    ensures Unescape(s, p, e) == None
  {}

  lemma {:induction false} ScanPassesPieces(s: text, p: nat, ps: seq<Piece>)
    requires PiecesOk(ps) && At(s, p, PiecesText(ps))
    ensures ScanEnd(s, p) == ScanEnd(s, p + |PiecesText(ps)|)
    decreases |ps|
  {
    hide PieceText, PieceOk, ScanEnd;
    if ps != [] {
      AtSplit(s, p, PieceText(ps[0]), PiecesText(ps[1..]));
      ScanPassesPiece(s, p, ps[0]);
      ScanPassesPieces(s, p + |PieceText(ps[0])|, ps[1..]);
    }
  }

  lemma {:induction false} UnescapesPieces(s: text, p: nat, e: nat, ps: seq<Piece>)
    requires PiecesOk(ps) && At(s, p, PiecesText(ps)) && p + |PiecesText(ps)| == e < |s|
    ensures Unescape(s, p, e) == if Paired(ps) then Some(PiecesBytes(ps)) else None
    decreases |ps|
  {
    hide PieceText, PieceOk, PieceBytes, Unescape, Joined, Utf8, IsHigh, IsLow, Paired;
    if ps == [] {
      UnescapeNothing(s, p);
      NothingPaired();
    } else {
      PairedStep(ps);
      FirstPiece(ps);
      AtSplit(s, p, PieceText(ps[0]), PiecesText(ps[1..]));
      if IsLow(ps[0]) || (IsHigh(ps[0]) && !(|ps| > 1 && IsLow(ps[1]))) {
        LoneIsRejected(s, p, e, ps);
      } else if IsHigh(ps[0]) {
        PairText(ps[0], ps[1]);
        FirstPiece(ps[1..]);
        assert ps[1..][1..] == ps[2..];
        AtSplit(s, p + 6, PieceText(ps[1]), PiecesText(ps[2..]));
        UnescapesPair(s, p, e, ps[0], ps[1]);
        UnescapesPieces(s, p + 12, e, ps[2..]);
      } else {
        UnescapesPiece(s, p, e, ps[0]);
        UnescapesPieces(s, p + |PieceText(ps[0])|, e, ps[1..]);
      }
    }
  }

  lemma NothingPaired()
    ensures Paired([])
  {}

  lemma PairText(high: Piece, low: Piece)
    requires IsHigh(high) && IsLow(low)
    ensures |PieceText(high)| == 6 && |PieceText(low)| == 6
  {}

  /**
   A quoted text is read if and only if its surrogates are paired, and then as
   the C string it stands for.
   */
  lemma StringReads(s: text, at: nat, ps: seq<Piece>)
    requires PiecesOk(ps) && At(s, at, QuotedText(ps))
    ensures StringAt(s, at) ==
            if Paired(ps) then Quoted(StringMeaning(ps), at + |QuotedText(ps)|) else NoString
  {
    hide PiecesText, PiecesBytes, Unescape, Paired, PiecesOk, PieceOk;
    var body := PiecesText(ps);
    AtSplit(s, at, [QUOTE], body + [QUOTE]);
    AtSplit(s, at + 1, body, [QUOTE]);
    var e := at + 1 + |body|;
    ScanPassesPieces(s, at + 1, ps);
    assert ScanEnd(s, e) == Some(e);
    UnescapesPieces(s, at + 1, e, ps);
  }

  // ---------------------------------------------------------------------
  // Numbers (section 6)
  // ---------------------------------------------------------------------

  datatype Exponent = Exponent(mark: uchar, sign: text, digits: text)

  datatype NumberSyntax = NumberSyntax(minus: bool, whole: text, fraction: Option<text>, exponent: Option<Exponent>)

  predicate DigitsOnly(t: text) {
    t != [] && forall i :: 0 <= i < |t| ==> '0' as uchar <= t[i] <= '9' as uchar
  }

  predicate ExponentOk(x: Exponent) {
    && (x.mark == 'e' as uchar || x.mark == 'E' as uchar)
    && (x.sign == [] || x.sign == ['+' as uchar] || x.sign == ['-' as uchar])
    && DigitsOnly(x.digits)
  }

  /** An optional minus, digits without a leading zero, an optional fraction and an optional exponent. */
  predicate NumberOk(n: NumberSyntax) {
    && DigitsOnly(n.whole) && (|n.whole| > 1 ==> n.whole[0] != '0' as uchar)
    && (n.fraction.Some? ==> DigitsOnly(n.fraction.value))
    && (n.exponent.Some? ==> ExponentOk(n.exponent.value))
  }

  function SignText(n: NumberSyntax): text {
    if n.minus then ['-' as uchar] else []
  }

  function FractionText(n: NumberSyntax): text {
    match n.fraction
    case None => []
    case Some(f) => ['.' as uchar] + f
  }

  function ExponentText(n: NumberSyntax): text {
    match n.exponent
    case None => []
    case Some(x) => [x.mark] + x.sign + x.digits
  }

  function NumberText(n: NumberSyntax): text {
    SignText(n) + n.whole + FractionText(n) + ExponentText(n)
  }

  function Digits10(t: text): nat
    requires DigitsOnly(t)
  {
    NatOf(t, 0, |t|)
  }

  function DigitOf(c: uchar): int {
    c as int - '0' as int
  }

  /** The integer that the digits denote, each place counting ten times the next. */
  function WholeValue(t: text): int {
    if t == [] then 0 else WholeValue(t[..|t| - 1]) * 10 + DigitOf(t[|t| - 1])
  }

  /** What a unit counts at the `n`-th place behind the dot. */
  function PlaceValue(n: nat): real {
    if n == 0 then 1.0 else PlaceValue(n - 1) / 10.0
  }

  /** The fraction that the digits behind the dot denote. */
  function FractionValue(t: text): real {
    if t == [] then 0.0 else FractionValue(t[..|t| - 1]) + DigitOf(t[|t| - 1]) as real * PlaceValue(|t|)
  }

  /** Multiplied, or divided, by ten that many times. */
  function TimesTen(r: real, n: int): real
    decreases if n < 0 then -n else n
  {
    if n == 0 then r else if n > 0 then TimesTen(r, n - 1) * 10.0 else TimesTen(r, n + 1) / 10.0
  }

  /** The decimal number that the text denotes. */
  function NumberValue(n: NumberSyntax): real {
    var whole := WholeValue(n.whole) as real;
    var mantissa := if n.fraction.None? then whole else whole + FractionValue(n.fraction.value);
    var signed := if n.minus then -mantissa else mantissa;
    if n.exponent.None? then signed
    else
      var exponent := WholeValue(n.exponent.value.digits);
      TimesTen(signed, if n.exponent.value.sign == ['-' as uchar] then -exponent else exponent)
  }

  lemma {:induction false} NatIsWhole(t: text, n: nat)
    requires n <= |t| && forall i :: 0 <= i < |t| ==> IsDigit(t[i])
    ensures NatOf(t, 0, n) == WholeValue(t[..n])
  {
    if n > 0 {
      NatIsWhole(t, n - 1);
      assert t[..n][..n - 1] == t[..n - 1];
    }
  }

  lemma {:induction false} PlaceIsPower(n: nat)
    ensures PlaceValue(n) * Pow10(n) == 1.0
  {
    if n > 0 {
      PlaceIsPower(n - 1);
      assert PlaceValue(n) * Pow10(n) == (PlaceValue(n - 1) / 10.0) * (10.0 * Pow10(n - 1));
      TensCancel(PlaceValue(n - 1), Pow10(n - 1));
    }
  }

  lemma TensCancel(a: real, b: real)
    ensures (a / 10.0) * (10.0 * b) == a * b
  {}

  /** The digits behind the dot, read as an integer, count in units of the last place. */
  lemma {:induction false} FractionIsNat(t: text, n: nat)
    requires n <= |t| && forall i :: 0 <= i < |t| ==> IsDigit(t[i])
    ensures FractionValue(t[..n]) * Pow10(n) == NatOf(t, 0, n) as real
  {
    if n > 0 {
      FractionIsNat(t, n - 1);
      PlaceIsPower(n);
      assert t[..n][..n - 1] == t[..n - 1];
      var f, d := FractionValue(t[..n - 1]), DigitOf(t[n - 1]) as real;
      LastPlace(f, d, PlaceValue(n), Pow10(n - 1));
    }
  }

  lemma LastPlace(f: real, d: real, unit: real, power: real)
    requires unit * (10.0 * power) == 1.0
    ensures (f + d * unit) * (10.0 * power) == (f * power) * 10.0 + d
  {
    assert (d * unit) * (10.0 * power) == d * (unit * (10.0 * power));
  }

  lemma FractionIsScaled(t: text)
    requires DigitsOnly(t)
    ensures Scale(NatOf(t, 0, |t|) as real, -|t|) == FractionValue(t)
  {
    FractionIsNat(t, |t|);
    assert t[..|t|] == t;
    Pow10Positive(|t|);
    Quotient(NatOf(t, 0, |t|) as real, FractionValue(t), Pow10(|t|));
  }

  lemma Quotient(a: real, b: real, c: real)
    requires c > 0.0 && b * c == a
    ensures a / c == b
  {}

  lemma {:induction false} ScaleIsTimesTen(r: real, n: int)
    ensures Scale(r, n) == TimesTen(r, n)
    decreases if n < 0 then -n else n
  {
    if n > 0 {
      ScaleIsTimesTen(r, n - 1);
      OneMoreTen(r, Pow10(n - 1));
    } else if n < 0 {
      ScaleIsTimesTen(r, n + 1);
      Pow10Positive(-n - 1);
      OneTenLess(r, Pow10(-n - 1));
    }
  }

  lemma OneMoreTen(r: real, p: real)
    ensures r * (10.0 * p) == r * p * 10.0
  {}

  lemma OneTenLess(r: real, p: real)
    requires p > 0.0
    ensures r / (10.0 * p) == r / p / 10.0
  {
    var q := r / p;
    assert q * p == r;
    assert (q / 10.0) * (10.0 * p) == q * p by { TensCancel(q, p); }
    Quotient(r, q / 10.0, 10.0 * p);
  }

  /** The same number, the way `strtod` puts it together. */
  function ScaledValue(n: NumberSyntax): real
    requires NumberOk(n)
  {
    var whole := Digits10(n.whole) as real;
    var mantissa :=
      if n.fraction.None? then whole
      else whole + Scale(Digits10(n.fraction.value) as real, -|n.fraction.value|);
    var signed := if n.minus then -mantissa else mantissa;
    if n.exponent.None? then signed
    else
      var exponent: int := Digits10(n.exponent.value.digits);
      Scale(signed, if n.exponent.value.sign == [MINUS] then -exponent else exponent)
  }

  lemma ScaledIsNumberValue(n: NumberSyntax)
    requires NumberOk(n)
    ensures ScaledValue(n) == NumberValue(n)
  {
    hide Scale, TimesTen, NatOf, WholeValue, FractionValue;
    WholeIsDigits10(n.whole);
    if n.fraction.Some? {
      FractionIsScaled(n.fraction.value);
    }
    if n.exponent.Some? {
      WholeIsDigits10(n.exponent.value.digits);
      var mantissa := if n.fraction.None? then WholeValue(n.whole) as real
                      else WholeValue(n.whole) as real + FractionValue(n.fraction.value);
      var exponent := WholeValue(n.exponent.value.digits);
      ScaleIsTimesTen(if n.minus then -mantissa else mantissa,
                      if n.exponent.value.sign == ['-' as uchar] then -exponent else exponent);
    }
  }

  lemma WholeIsDigits10(t: text)
    requires DigitsOnly(t)
    ensures WholeValue(t) == Digits10(t)
  {
    NatIsWhole(t, |t|);
    assert t[..|t|] == t;
  }

  lemma {:induction false} DigitsEndIs(r: text, i: nat, e: nat)
    requires i <= e <= |r| && (forall k :: i <= k < e ==> IsDigit(r[k])) && (e < |r| ==> !IsDigit(r[e]))
    ensures DigitsEnd(r, i) == e
    decreases e - i
  {
    if i < e { DigitsEndIs(r, i + 1, e); }
  }

  /** A stretch of digits at position `i`, and what `strtod` makes of it. */
  lemma DigitsAt(r: text, i: nat, t: text)
    requires DigitsOnly(t) && At(r, i, t) && (i + |t| < |r| ==> !IsDigit(r[i + |t|]))
    ensures DigitsEnd(r, i) == i + |t|
    ensures (forall k :: i <= k < i + |t| ==> IsDigit(r[k])) && NatOf(r, i, i + |t|) == Digits10(t)
  {
    assert forall k :: i <= k < i + |t| ==> r[k] == t[k - i];
    DigitsEndIs(r, i, i + |t|);
    SameDigitsSameNumber(r, i, t, 0, |t|);
  }

  /** Where the parts of a number text stand. */
  lemma NumberParts(n: NumberSyntax)
    requires NumberOk(n)
    ensures var r, i := NumberText(n), |SignText(n)|;
            var e := i + |n.whole|;
            var f := e + |FractionText(n)|;
            && At(r, 0, SignText(n)) && At(r, i, n.whole) && At(r, e, FractionText(n)) && At(r, f, ExponentText(n))
            && |r| == f + |ExponentText(n)|
  {
    hide SignText, FractionText, ExponentText, At;
    FourParts(SignText(n), n.whole, FractionText(n), ExponentText(n));
  }

  lemma FourParts(a: text, b: text, c: text, d: text)
    ensures var r := a + b + c + d;
            At(r, 0, a) && At(r, |a|, b) && At(r, |a| + |b|, c) && At(r, |a| + |b| + |c|, d)
  {
    hide At;
    var r := a + b + c + d;
    Regrouped(a, b, c, d);
    AtSplit(r, 0, a, b + (c + d));
    AtSplit(r, |a|, b, c + d);
    AtSplit(r, |a| + |b|, c, d);
  }

  lemma Regrouped(a: text, b: text, c: text, d: text)
    ensures a + b + c + d == a + (b + (c + d)) && At(a + b + c + d, 0, a + (b + (c + d)))
    ensures |a + b + c + d| == |a| + |b| + |c| + |d|
  {
    assert a + b + c + d == a + (b + (c + d));
  }

  lemma SignRead(n: NumberSyntax)
    requires NumberOk(n)
    ensures SignEnd(NumberText(n), 0) == |SignText(n)|
    ensures n.minus <==> |SignText(n)| == 1
    ensures n.minus ==> NumberText(n)[0] == MINUS
  {
    hide FractionText, ExponentText;
    NumberParts(n);
    AtFirst(NumberText(n), |SignText(n)|, n.whole);
    if n.minus {
      AtFirst(NumberText(n), 0, SignText(n));
    }
  }

  /** Behind the digits in front comes the dot of a fraction, the mark of an exponent, or nothing. */
  lemma BehindWhole(n: NumberSyntax)
    requires NumberOk(n)
    ensures var r, e := NumberText(n), |SignText(n)| + |n.whole|;
            && (e < |r| ==> !IsDigit(r[e]))
            && ((e < |r| && r[e] == 0x2E) <==> n.fraction.Some?)
  {
    hide SignText, NumberText, At, DigitsOnly;
    var r, e := NumberText(n), |SignText(n)| + |n.whole|;
    NumberParts(n);
    if n.fraction.Some? {
      AtFirst(r, e, FractionText(n));
    } else if n.exponent.Some? {
      AtFirst(r, e, ExponentText(n));
    }
  }

  lemma WholeRead(n: NumberSyntax)
    requires NumberOk(n)
    ensures var r, i := NumberText(n), |SignText(n)|;
            var e := i + |n.whole|;
            && DigitsEnd(r, i) == e && NatOf(r, i, e) == Digits10(n.whole)
            && ((e < |r| && r[e] == 0x2E) <==> n.fraction.Some?)
  {
    hide SignText, FractionText, ExponentText, NatOf, DigitsEnd, NumberText, At, DigitsOnly, ExponentOk;
    NumberParts(n);
    BehindWhole(n);
    DigitsAt(NumberText(n), |SignText(n)|, n.whole);
  }

  lemma FractionRead(n: NumberSyntax)
    requires NumberOk(n) && n.fraction.Some?
    ensures var r, e := NumberText(n), |SignText(n)| + |n.whole|;
            var f := e + |FractionText(n)|;
            DigitsEnd(r, e + 1) == f && NatOf(r, e + 1, f) == Digits10(n.fraction.value)
  {
    hide SignText, NatOf, DigitsEnd, NumberText, At, Digits10;
    var r, e := NumberText(n), |SignText(n)| + |n.whole|;
    NumberParts(n);
    AtFirstAndRest(r, e, FractionText(n));
    assert FractionText(n)[1..] == n.fraction.value;
    if n.exponent.Some? {
      AtFirst(r, e + |FractionText(n)|, ExponentText(n));
    }
    DigitsAt(r, e + 1, n.fraction.value);
  }

  lemma ExponentReadAt(r: text, f: nat, x: Exponent)
    requires ExponentOk(x) && At(r, f, [x.mark] + (x.sign + x.digits)) && |r| == f + 1 + |x.sign| + |x.digits|
    ensures r[f] == x.mark && SignEnd(r, f + 1) == f + 1 + |x.sign|
    ensures DigitsEnd(r, f + 1 + |x.sign|) == |r| && NatOf(r, f + 1 + |x.sign|, |r|) == Digits10(x.digits)
    ensures |x.sign| == 1 ==> r[f + 1] == x.sign[0]
  {
    hide NatOf, DigitsEnd, At, Digits10;
    AtSplit(r, f, [x.mark], x.sign + x.digits);
    AtSplit(r, f + 1, x.sign, x.digits);
    AtFirst(r, f + 1 + |x.sign|, x.digits);
    DigitsAt(r, f + 1 + |x.sign|, x.digits);
  }

  lemma ExponentRead(n: NumberSyntax)
    requires NumberOk(n) && n.exponent.Some?
    ensures var r, f := NumberText(n), |SignText(n)| + |n.whole| + |FractionText(n)|;
            var x := n.exponent.value;
            var d := f + 1 + |x.sign|;
            && f < |r| && (r[f] == 0x65 || r[f] == 0x45)
            && SignEnd(r, f + 1) == d && DigitsEnd(r, d) == |r| && NatOf(r, d, |r|) == Digits10(x.digits)
            && ((d == f + 2 && r[f + 1] == MINUS) <==> x.sign == [MINUS])
  {
    hide SignText, FractionText, NatOf, DigitsEnd, SignEnd, NumberText, At, Digits10;
    var x := n.exponent.value;
    NumberParts(n);
    assert ExponentText(n) == [x.mark] + (x.sign + x.digits);
    ExponentReadAt(NumberText(n), |SignText(n)| + |n.whole| + |FractionText(n)|, x);
  }

  /** Every number text of the grammar is read whole, and as the number it denotes. */
  lemma StrtodReads(n: NumberSyntax)
    requires NumberOk(n)
    ensures Strtod(NumberText(n)) == ANumber(ScaledValue(n), |NumberText(n)|)
  {
    hide SignText, FractionText, ExponentText, NatOf, DigitsEnd, SignEnd, Scale, DigitsOnly;
    NumberParts(n);
    SignRead(n);
    WholeRead(n);
    TextSizes(n);
    if n.fraction.Some? {
      FractionRead(n);
    }
    if n.exponent.Some? {
      ExponentRead(n);
    }
  }

  lemma TextSizes(n: NumberSyntax)
    requires NumberOk(n)
    ensures |n.whole| > 0 && |SignText(n)| <= 1
    ensures n.fraction.None? ==> |FractionText(n)| == 0
    ensures n.fraction.Some? ==> |FractionText(n)| == 1 + |n.fraction.value| && |n.fraction.value| > 0
    ensures n.exponent.None? ==> |ExponentText(n)| == 0
    ensures n.exponent.Some? ==> |n.exponent.value.digits| > 0
                                 && |ExponentText(n)| == 1 + |n.exponent.value.sign| + |n.exponent.value.digits|
  {}

  lemma NumberChars(n: NumberSyntax)
    requires NumberOk(n)
    ensures forall i :: 0 <= i < |NumberText(n)| ==> IsNumberChar(NumberText(n)[i])
    ensures NumberText(n) != [] && (NumberText(n)[0] == MINUS || IsDigit(NumberText(n)[0]))
  {
    assert forall i :: 0 <= i < |SignText(n)| ==> IsNumberChar(SignText(n)[i]);
    assert forall i :: 0 <= i < |FractionText(n)| ==> IsNumberChar(FractionText(n)[i]);
    assert forall i :: 0 <= i < |ExponentText(n)| ==> IsNumberChar(ExponentText(n)[i]);
  }

  lemma NumberReads(s: text, at: nat, n: NumberSyntax)
    requires NumberOk(n) && At(s, at, NumberText(n)) && EndsAt(s, at + |NumberText(n)|)
    ensures NumberAt(s, at) == ANumber(NumberValue(n), |NumberText(n)|)
  {
    hide NumberText, NumberValue, ScaledValue, Strtod, NumberOk;
    var r := NumberText(n);
    ScaledIsNumberValue(n);
    NumberChars(n);
    assert forall k :: at <= k < at + |r| ==> s[k] == r[k - at];
    NumberEndIs(s, at, at + |r|);
    StrtodReads(n);
  }

  // ---------------------------------------------------------------------
  // Values (sections 2 to 5)
  // ---------------------------------------------------------------------

  /** A value as it is spelled. `gap` is the white space inside empty brackets. */
  datatype Syntax =
    | Literal(word: Json)
    | Numeral(number: NumberSyntax)
    | Text(pieces: seq<Piece>)
    | List(gap: text, slots: seq<Slot>)
    | Record(gap: text, fields: seq<Field>)

  /** A value with the white space around it. */
  datatype Slot = Slot(before: text, value: Syntax, after: text)

  /** A name with the white space around it, and what stands behind the colon. */
  datatype Field = Field(before: text, key: seq<Piece>, after: text, slot: Slot)

  /** Space, tab, line feed, carriage return. */
  predicate White(t: text) {
    forall i :: 0 <= i < |t| ==> t[i] == 0x20 || t[i] == 0x09 || t[i] == 0x0A || t[i] == 0x0D
  }

  ghost predicate SyntaxOk(c: Syntax) {
    match c
    case Literal(w) => w == Null || w == True || w == False
    case Numeral(n) => NumberOk(n)
    case Text(ps) => PiecesOk(ps)
    case List(gap, slots) => White(gap) && forall i :: 0 <= i < |slots| ==> SlotOk(slots[i])
    case Record(gap, fields) => White(gap) && forall i :: 0 <= i < |fields| ==> FieldOk(fields[i])
  }

  ghost predicate SlotOk(sl: Slot) {
    White(sl.before) && SyntaxOk(sl.value) && White(sl.after)
  }

  ghost predicate FieldOk(f: Field) {
    White(f.before) && PiecesOk(f.key) && White(f.after) && SlotOk(f.slot)
  }

  /** At most `limit` arrays and objects around any value, and no lone surrogate in any string or name. */
  ghost predicate Readable(c: Syntax, limit: int) {
    match c
    case Text(ps) => Paired(ps)
    case List(_, slots) => limit > 0 && SlotsReadable(slots, limit - 1)
    case Record(_, fields) => limit > 0 && FieldsReadable(fields, limit - 1)
    case _ => true
  }

  ghost predicate SlotsReadable(slots: seq<Slot>, limit: int) {
    forall i :: 0 <= i < |slots| ==> Readable(slots[i].value, limit)
  }

  ghost predicate FieldsReadable(fields: seq<Field>, limit: int) {
    forall i :: 0 <= i < |fields| ==> Paired(fields[i].key) && Readable(fields[i].slot.value, limit)
  }

  function WordText(w: Json): text {
    match w
    case True => Lit("true")
    case False => Lit("false")
    case _ => Lit("null")
  }

  /** The parser's words are those of section 3. */
  lemma WordsAgree()
    ensures TRUE_TEXT == Lit("true") && FALSE_TEXT == Lit("false") && NULL_TEXT == Lit("null")
  {}

  function Spell(c: Syntax): text
    decreases c
  {
    match c
    case Literal(w) => WordText(w)
    case Numeral(n) => NumberText(n)
    case Text(ps) => QuotedText(ps)
    case List(gap, slots) => [OPEN_BRACKET] + ((if slots == [] then gap else SpellSlots(slots)) + [CLOSE_BRACKET])
    case Record(gap, fields) => [OPEN_BRACE] + ((if fields == [] then gap else SpellFields(fields)) + [CLOSE_BRACE])
  }

  function SpellSlot(sl: Slot): text
    decreases sl
  {
    sl.before + (Spell(sl.value) + sl.after)
  }

  function SpellSlots(slots: seq<Slot>): text
    requires slots != []
    decreases slots
  {
    SpellSlot(slots[0]) + (if |slots| == 1 then [] else [COMMA] + SpellSlots(slots[1..]))
  }

  function SpellField(f: Field): text
    decreases f
  {
    f.before + (QuotedText(f.key) + (f.after + ([COLON] + SpellSlot(f.slot))))
  }

  function SpellFields(fields: seq<Field>): text
    requires fields != []
    decreases fields
  {
    SpellField(fields[0]) + (if |fields| == 1 then [] else [COMMA] + SpellFields(fields[1..]))
  }

  /** The value that the text denotes. */
  ghost function Meaning(c: Syntax): Json
    requires SyntaxOk(c)
    decreases c
  {
    match c
    case Literal(w) => w
    case Numeral(n) => Number(NumberValue(n))
    case Text(ps) => String(StringMeaning(ps))
    case List(_, slots) => Array(SlotMeanings(slots))
    case Record(_, fields) => Object(FieldMeanings(fields))
  }

  ghost function SlotMeanings(slots: seq<Slot>): (vs: seq<Json>)
    requires forall i :: 0 <= i < |slots| ==> SlotOk(slots[i])
    ensures |vs| == |slots|
    decreases slots
  {
    if slots == [] then []
    else
      assert SlotOk(slots[0]);
      [Meaning(slots[0].value)] + SlotMeanings(slots[1..])
  }

  ghost function FieldMeanings(fields: seq<Field>): (ms: seq<Member>)
    requires forall i :: 0 <= i < |fields| ==> FieldOk(fields[i])
    ensures |ms| == |fields|
    decreases fields
  {
    if fields == [] then []
    else
      assert FieldOk(fields[0]) && SlotOk(fields[0].slot);
      [Member(StringMeaning(fields[0].key), Meaning(fields[0].slot.value))] + FieldMeanings(fields[1..])
  }

  // ---------------------------------------------------------------------
  // Reading values
  // ---------------------------------------------------------------------

  lemma FirstOf(c: Syntax)
    requires SyntaxOk(c)
    ensures Spell(c) != [] && Spell(c)[0] > 32 && Spell(c)[0] != CLOSE_BRACKET && Spell(c)[0] != 0xEF
  {
    hide NumberText, SpellSlots, SpellFields, PiecesText;
    if c.Numeral? {
      NumberChars(c.number);
    }
  }

  /** A character that ends a slot. */
  predicate Delimiter(c: uchar) {
    c == COMMA || c == CLOSE_BRACKET || c == CLOSE_BRACE
  }

  /** White space and a delimiter behind a value end it. */
  lemma ValueEnds(s: text, e: nat, after: text, rest: text)
    requires At(s, e, after + rest) && White(after) && rest != [] && Delimiter(rest[0])
    ensures EndsAt(s, e) && SkipSpace(s, e) == e + |after| && At(s, e + |after|, rest) && IsAt(s, e + |after|, rest[0])
  {
    hide SkipSpace;
    AtSplit(s, e, after, rest);
    AtFirst(s, e + |after|, rest);
    SkipsTo(s, e, after);
    AtFirst(s, e, after + rest);
  }

  /** A slot, and a delimiter behind it: where its value starts and where its white space ends. */
  lemma SlotText(s: text, i: nat, sl: Slot, rest: text)
    requires SlotOk(sl) && At(s, i, SpellSlot(sl) + rest) && rest != [] && Delimiter(rest[0])
    ensures var v := i + |sl.before|;
            var e := v + |Spell(sl.value)|;
            var k := i + |SpellSlot(sl)|;
            && SkipSpace(s, i) == v < |s| && Spell(sl.value) != [] && s[v] == Spell(sl.value)[0]
            && At(s, v, Spell(sl.value)) && EndsAt(s, e)
            && SkipSpace(s, e) == k && At(s, k, rest) && IsAt(s, k, rest[0])
  {
    hide Spell, SkipSpace, At, White, SyntaxOk;
    var a, b, c := sl.before, Spell(sl.value), sl.after;
    assert SpellSlot(sl) + rest == a + (b + (c + rest));
    AtSplit(s, i, a, b + (c + rest));
    AtSplit(s, i + |a|, b, c + rest);
    FirstOf(sl.value);
    AtFirst(s, i + |a|, b);
    WhiteSkips(s, i, a);
    ValueEnds(s, i + |a| + |b|, c, rest);
  }

  lemma WhiteSkips(s: text, i: nat, blank: text)
    requires At(s, i, blank) && White(blank) && i + |blank| < |s| && s[i + |blank|] > 32
    ensures SkipSpace(s, i) == i + |blank|
  {
    SkipsTo(s, i, blank);
  }

  /**
   A value of the grammar, wherever it stands, is read if and only if it nests
   within the limit and has no lone surrogate, and then as the value it denotes,
   and to its end.
   */
  lemma {:induction false} ValueReads(s: text, i: nat, c: Syntax, depth: nat)
    requires SyntaxOk(c) && At(s, i, Spell(c)) && EndsAt(s, i + |Spell(c)|)
    ensures ValueAt(s, i, depth) ==
            if Readable(c, NESTING_LIMIT - depth) then Parsed(Meaning(c), i + |Spell(c)|) else Failed
    decreases c, 2
  {
    hide ItemsAt, MembersAt, StringAt, NumberAt, SkipSpace, NumberText, NumberValue, QuotedText, StringMeaning,
         PiecesOk, Paired;
    FirstOf(c);
    AtFirst(s, i, Spell(c));
    match c
    case Literal(w) => WordsAgree();
    case Numeral(n) =>
      NumberChars(n);
      NoWordAt(s, i);
      NumberReads(s, i, n);
    case Text(ps) =>
      QuotedFirst(ps);
      NoWordAt(s, i);
      StringReads(s, i, ps);
    case List(gap, slots) =>
      NoWordAt(s, i);
      ListReads(s, i, gap, slots, depth);
    case Record(gap, fields) =>
      NoWordAt(s, i);
      RecordReads(s, i, gap, fields, depth);
  }

  lemma QuotedFirst(ps: seq<Piece>)
    ensures QuotedText(ps) != [] && QuotedText(ps)[0] == QUOTE
  {}

  lemma {:induction false} ListReads(s: text, i: nat, gap: text, slots: seq<Slot>, depth: nat)
    requires SyntaxOk(List(gap, slots))
    requires At(s, i, Spell(List(gap, slots))) && IsAt(s, i, OPEN_BRACKET)
    ensures ArrayAt(s, i, depth) ==
            if Readable(List(gap, slots), NESTING_LIMIT - depth)
            then Parsed(Array(SlotMeanings(slots)), i + |Spell(List(gap, slots))|) else Failed
    decreases slots, 1
  {
    hide ItemsAt, SkipSpace, At, SpellSlots, White, SlotsReadable, SlotMeanings;
    NoneUnreadable(NESTING_LIMIT - depth - 1);
    var body := if slots == [] then gap else SpellSlots(slots);
    AtSplit(s, i, [OPEN_BRACKET], body + [CLOSE_BRACKET]);
    if slots == [] {
      AtSplit(s, i + 1, gap, [CLOSE_BRACKET]);
      WhiteSkips(s, i + 1, gap);
    } else {
      SlotsRead(s, i + 1, slots, depth + 1);
    }
  }

  lemma {:induction false} SlotsRead(s: text, i: nat, slots: seq<Slot>, depth: nat)
    requires slots != []
    requires forall k :: 0 <= k < |slots| ==> SlotOk(slots[k])
    requires At(s, i, SpellSlots(slots) + [CLOSE_BRACKET])
    ensures i < |s| && !IsAt(s, SkipSpace(s, i), CLOSE_BRACKET) && SkipSpace(s, i) < |s|
    ensures ItemsAt(s, SkipSpace(s, i), depth) ==
            if SlotsReadable(slots, NESTING_LIMIT - depth)
            then Items(SlotMeanings(slots), i + |SpellSlots(slots)| + 1) else ItemsFailed
    decreases slots, 0
  {
    hide ValueAt, SkipSpace, Spell, ItemsAt, At, SyntaxOk, Readable, Meaning, SlotsReadable;
    SlotsReadableSplit(slots, NESTING_LIMIT - depth);
    var sl := slots[0];
    var v := i + |sl.before|;
    var k := i + |SpellSlot(sl)|;
    if |slots| == 1 {
      LastSlot(slots);
      SlotText(s, i, sl, [CLOSE_BRACKET]);
      ValueReads(s, v, sl.value, depth);
      FirstOf(sl.value);
      SlotRead(s, v, sl.value, depth, k);
      TailMeans(s, k, depth);
      assert SlotMeanings(slots[1..]) == [];
    } else {
      MoreSlots(slots);
      var rest := SpellSlots(slots[1..]) + [CLOSE_BRACKET];
      SlotText(s, i, sl, [COMMA] + rest);
      ValueReads(s, v, sl.value, depth);
      FirstOf(sl.value);
      SlotRead(s, v, sl.value, depth, k);
      TailMeans(s, k, depth);
      AtSplit(s, k, [COMMA], rest);
      SlotsRead(s, k + 1, slots[1..], depth);
    }
  }

  /** The item list at an unreadable value fails; otherwise it goes on behind the value. */
  lemma SlotRead(s: text, v: nat, c: Syntax, depth: nat, k: nat)
    requires SyntaxOk(c) && v <= |s| && k <= |s|
    requires v + |Spell(c)| <= |s| && k == SkipSpace(s, v + |Spell(c)|)
    requires ValueAt(s, v, depth) ==
             if Readable(c, NESTING_LIMIT - depth) then Parsed(Meaning(c), v + |Spell(c)|) else Failed
    ensures ItemsAt(s, v, depth) ==
            if Readable(c, NESTING_LIMIT - depth)
            then PrependItems([Meaning(c)], ItemsTail(s, k, depth))
            else ItemsFailed
  {
    hide ValueAt, SkipSpace, ItemsAt, Readable, Meaning, Spell, SyntaxOk;
    if Readable(c, NESTING_LIMIT - depth) {
      ItemsStep(s, v, depth, Meaning(c), k);
    } else {
      ItemsNeedValue(s, v, depth);
    }
  }

  lemma NoneUnreadable(limit: int)
    ensures SlotsReadable([], limit) && FieldsReadable([], limit)
  {}

  lemma SlotsReadableSplit(slots: seq<Slot>, limit: int)
    requires slots != []
    ensures SlotsReadable(slots, limit) <==> Readable(slots[0].value, limit) && SlotsReadable(slots[1..], limit)
    ensures SlotsReadable([], limit)
  {
    hide Readable;
    assert slots == [slots[0]] + slots[1..];
  }

  lemma FieldsReadableSplit(fields: seq<Field>, limit: int)
    requires fields != []
    ensures FieldsReadable(fields, limit) <==>
            Paired(fields[0].key) && Readable(fields[0].slot.value, limit) && FieldsReadable(fields[1..], limit)
    ensures FieldsReadable([], limit)
  {
    hide Readable, Paired;
    assert fields == [fields[0]] + fields[1..];
  }

  lemma LastSlot(slots: seq<Slot>)
    requires |slots| == 1
    ensures SpellSlots(slots) == SpellSlot(slots[0])
  {
    hide SpellSlot;
    assert SpellSlot(slots[0]) + [] == SpellSlot(slots[0]);
  }

  lemma MoreSlots(slots: seq<Slot>)
    requires |slots| > 1
    ensures SpellSlots(slots) + [CLOSE_BRACKET]
              == SpellSlot(slots[0]) + ([COMMA] + (SpellSlots(slots[1..]) + [CLOSE_BRACKET]))
    ensures |SpellSlots(slots)| == |SpellSlot(slots[0])| + 1 + |SpellSlots(slots[1..])|
  {
    hide SpellSlot;
    var a, c := SpellSlot(slots[0]), SpellSlots(slots[1..]);
    assert a + ([COMMA] + c) + [CLOSE_BRACKET] == a + ([COMMA] + (c + [CLOSE_BRACKET]));
  }

  lemma {:induction false} RecordReads(s: text, i: nat, gap: text, fields: seq<Field>, depth: nat)
    requires SyntaxOk(Record(gap, fields))
    requires At(s, i, Spell(Record(gap, fields))) && IsAt(s, i, OPEN_BRACE)
    ensures ObjectAt(s, i, depth) ==
            if Readable(Record(gap, fields), NESTING_LIMIT - depth)
            then Parsed(Object(FieldMeanings(fields)), i + |Spell(Record(gap, fields))|) else Failed
    decreases fields, 1
  {
    hide MembersAt, SkipSpace, At, SpellFields, White, FieldsReadable, PieceOk, PiecesOk, FieldMeanings;
    NoneUnreadable(NESTING_LIMIT - depth - 1);
    var body := if fields == [] then gap else SpellFields(fields);
    AtSplit(s, i, [OPEN_BRACE], body + [CLOSE_BRACE]);
    if fields == [] {
      AtSplit(s, i + 1, gap, [CLOSE_BRACE]);
      WhiteSkips(s, i + 1, gap);
    } else {
      FieldsRead(s, i + 1, fields, depth + 1);
    }
  }

  /** A field, and a delimiter behind it: key, colon and the slot. */
  lemma FieldText(s: text, i: nat, f: Field, rest: text)
    requires FieldOk(f) && At(s, i, SpellField(f) + rest)
    ensures var q := i + |f.before|;
            var c := q + |QuotedText(f.key)| + |f.after|;
            && SkipSpace(s, i) == q && IsAt(s, q, QUOTE)
            && At(s, q, QuotedText(f.key)) && q + |QuotedText(f.key)| <= |s|
            && SkipSpace(s, q + |QuotedText(f.key)|) == c && IsAt(s, c, COLON)
            && At(s, c + 1, SpellSlot(f.slot) + rest)
            && i + |SpellField(f)| == c + 1 + |SpellSlot(f.slot)|
  {
    hide SpellSlot, SpellField, SkipSpace, At, White, QuotedText, SlotOk, PiecesOk;
    var a, b, d, e := f.before, QuotedText(f.key), f.after, SpellSlot(f.slot) + rest;
    FieldParts(f, rest);
    KeyParts(s, i, a, b, d, e);
    QuotedFirst(f.key);
    AtFirst(s, i + |a|, b);
    WhiteSkips(s, i, a);
    WhiteSkips(s, i + |a| + |b|, d);
  }

  lemma KeyParts(s: text, i: nat, a: text, b: text, c: text, d: text)
    requires At(s, i, a + (b + (c + ([COLON] + d))))
    ensures var k := i + |a| + |b| + |c|;
            && At(s, i, a) && At(s, i + |a|, b) && At(s, i + |a| + |b|, c) && IsAt(s, k, COLON) && At(s, k + 1, d)
            && i + |a| + |b| <= |s|
  {
    hide At;
    AtSplit(s, i, a, b + (c + ([COLON] + d)));
    AtSplit(s, i + |a|, b, c + ([COLON] + d));
    AtSplit(s, i + |a| + |b|, c, [COLON] + d);
    AtSplit(s, i + |a| + |b| + |c|, [COLON], d);
    AtFirst(s, i + |a| + |b| + |c|, [COLON] + d);
  }

  lemma FieldParts(f: Field, rest: text)
    ensures SpellField(f) + rest
              == f.before + (QuotedText(f.key) + (f.after + ([COLON] + (SpellSlot(f.slot) + rest))))
    ensures |SpellField(f)| == |f.before| + |QuotedText(f.key)| + |f.after| + 1 + |SpellSlot(f.slot)|
  {
    hide SpellSlot, QuotedText;
    Nested(f.before, QuotedText(f.key), f.after, [COLON], SpellSlot(f.slot), rest);
  }

  lemma Nested(a: text, b: text, c: text, d: text, e: text, f: text)
    ensures a + (b + (c + (d + e))) + f == a + (b + (c + (d + (e + f))))
  {}

  lemma {:induction false} FieldsRead(s: text, i: nat, fields: seq<Field>, depth: nat)
    requires fields != []
    requires forall k :: 0 <= k < |fields| ==> FieldOk(fields[k])
    requires At(s, i, SpellFields(fields) + [CLOSE_BRACE])
    ensures i < |s| && IsAt(s, SkipSpace(s, i), QUOTE)
    ensures MembersAt(s, SkipSpace(s, i), depth) ==
            if FieldsReadable(fields, NESTING_LIMIT - depth)
            then Members(FieldMeanings(fields), i + |SpellFields(fields)| + 1) else MembersFailed
    decreases fields, 0
  {
    hide ValueAt, SkipSpace, StringAt, Spell, MembersAt, At, SyntaxOk, Readable, Meaning, QuotedText, SpellSlot,
         PiecesOk, StringMeaning, White, FieldsReadable, Paired;
    FieldsReadableSplit(fields, NESTING_LIMIT - depth);
    var f := fields[0];
    var q := i + |f.before|;
    var j := q + |QuotedText(f.key)| + |f.after| + 1;
    var v := j + |f.slot.before|;
    var k := i + |SpellField(f)|;
    assert FieldOk(f);
    FieldFacts(f);
    var rest := if |fields| == 1 then [CLOSE_BRACE] else [COMMA] + (SpellFields(fields[1..]) + [CLOSE_BRACE]);
    FieldsSplit(fields);
    FieldText(s, i, f, rest);
    SlotText(s, j, f.slot, rest);
    StringReads(s, q, f.key);
    ValueReads(s, v, f.slot.value, depth);
    FieldRead(s, q, f, depth, k);
    MembersTailMeans(s, k, depth);
    if |fields| == 1 {
      assert FieldMeanings(fields[1..]) == [];
    } else {
      AtSplit(s, k, [COMMA], SpellFields(fields[1..]) + [CLOSE_BRACE]);
      FieldsRead(s, k + 1, fields[1..], depth);
    }
  }

  /** The member list at an unreadable name or value fails; otherwise it goes on behind the value. */
  lemma FieldRead(s: text, q: nat, f: Field, depth: nat, k: nat)
    requires PiecesOk(f.key) && SyntaxOk(f.slot.value) && q + |QuotedText(f.key)| + |f.after| < |s| && k <= |s|
    requires StringAt(s, q) ==
             if Paired(f.key) then Quoted(StringMeaning(f.key), q + |QuotedText(f.key)|) else NoString
    requires var c := q + |QuotedText(f.key)| + |f.after|;
             && SkipSpace(s, q + |QuotedText(f.key)|) == c && IsAt(s, c, COLON)
             && SkipSpace(s, c + 1) == c + 1 + |f.slot.before|
    requires var v := q + |QuotedText(f.key)| + |f.after| + 1 + |f.slot.before|;
             && v <= |s| && v + |Spell(f.slot.value)| <= |s| && k == SkipSpace(s, v + |Spell(f.slot.value)|)
             && ValueAt(s, v, depth) ==
                if Readable(f.slot.value, NESTING_LIMIT - depth)
                then Parsed(Meaning(f.slot.value), v + |Spell(f.slot.value)|) else Failed
    ensures MembersAt(s, q, depth) ==
            if Paired(f.key) && Readable(f.slot.value, NESTING_LIMIT - depth)
            then PrependMembers([Member(StringMeaning(f.key), Meaning(f.slot.value))], MembersTail(s, k, depth))
            else MembersFailed
  {
    hide ValueAt, SkipSpace, StringAt, MembersAt, Readable, Meaning, Spell, SyntaxOk, QuotedText, StringMeaning,
         PiecesOk, White, Paired;
    if !Paired(f.key) {
      MembersNeedKey(s, q, depth);
    } else if Readable(f.slot.value, NESTING_LIMIT - depth) {
      MembersStep(s, q, depth, Member(StringMeaning(f.key), Meaning(f.slot.value)), k);
    } else {
      MembersNeedValue(s, q, depth);
    }
  }

  lemma MembersNeedKey(s: text, q: nat, depth: nat)
    requires q < |s| && StringAt(s, q).NoString?
    ensures MembersAt(s, q, depth) == MembersFailed
  {}

  lemma MembersNeedValue(s: text, q: nat, depth: nat)
    requires q < |s| && StringAt(s, q).Quoted?
    requires var c := SkipSpace(s, StringAt(s, q).after);
             IsAt(s, c, COLON) && ValueAt(s, SkipSpace(s, c + 1), depth).Failed?
    ensures MembersAt(s, q, depth) == MembersFailed
  {
    hide ValueAt, SkipSpace, StringAt;
  }

  lemma FieldFacts(f: Field)
    requires FieldOk(f)
    ensures PiecesOk(f.key) && SlotOk(f.slot) && SyntaxOk(f.slot.value)
  {}

  lemma FieldsSplit(fields: seq<Field>)
    requires fields != []
    ensures SpellFields(fields) + [CLOSE_BRACE]
              == SpellField(fields[0])
                 + (if |fields| == 1 then [CLOSE_BRACE] else [COMMA] + (SpellFields(fields[1..]) + [CLOSE_BRACE]))
    ensures |SpellFields(fields)| ==
            |SpellField(fields[0])| + if |fields| == 1 then 0 else 1 + |SpellFields(fields[1..])|
  {
    hide SpellField;
    var a := SpellField(fields[0]);
    if |fields| > 1 {
      var c := SpellFields(fields[1..]);
      assert a + ([COMMA] + c) + [CLOSE_BRACE] == a + ([COMMA] + (c + [CLOSE_BRACE]));
    } else {
      assert a + [] == a;
    }
  }

  // ---------------------------------------------------------------------
  // Whole texts
  // ---------------------------------------------------------------------

  /** White space up to a final terminator is skipped onto the terminator. */
  lemma SkipsToEnd(s: text, i: nat, blank: text)
    requires At(s, i, blank + [NUL]) && White(blank) && i + |blank| + 1 == |s|
    ensures SkipSpace(s, i) == i + |blank| && IsAt(s, i + |blank|, NUL)
  {
    assert forall k :: 0 <= k <= |blank| ==> s[i + k] == (blank + [NUL])[k];
    forall k | i <= k < |s| ensures s[k] <= 32 {
      assert s[k] == (blank + [NUL])[k - i];
    }
    NonSpaceToEnd(s, i);
  }

  lemma {:induction false} NonSpaceToEnd(s: text, i: nat)
    requires i <= |s| && forall k :: i <= k < |s| ==> s[k] <= 32
    ensures NonSpace(s, i) == |s|
    decreases |s| - i
  {
    if i < |s| { NonSpaceToEnd(s, i + 1); }
  }

  /**
   A text of RFC 8259 parses if and only if it nests within the limit and has no
   lone surrogate among its escapes, and then to the value it denotes, whether or
   not the text is required to end behind it.
   */
  lemma TextReads(sl: Slot)
    requires SlotOk(sl)
    ensures Parse(SpellSlot(sl)) == if Readable(sl.value, NESTING_LIMIT) then Some(Meaning(sl.value)) else None
    ensures TextAt(SpellSlot(sl) + [NUL], true) ==
            if Readable(sl.value, NESTING_LIMIT) then Parsed(Meaning(sl.value), |SpellSlot(sl)|) else Failed
  {
    hide SpellSlot, Spell, ValueAt, SkipSpace, SyntaxOk, Readable, Meaning, White, TextAt, NonSpace;
    var e := |sl.before| + |Spell(sl.value)|;
    SlotThenNul(sl);
    TextParts(sl);
    ValueReads(SpellSlot(sl) + [NUL], |sl.before|, sl.value, 0);
    if Readable(sl.value, NESTING_LIMIT) {
      WholeText(SpellSlot(sl), |sl.before|, Meaning(sl.value), e);
    } else {
      NoText(SpellSlot(sl), |sl.before|);
    }
  }

  /** A byte order mark in front makes no difference (section 8.1 of RFC 8259 lets a parser ignore it). */
  lemma MarkedTextReads(sl: Slot)
    requires SlotOk(sl)
    ensures var t := [0xEF, 0xBB, 0xBF] + SpellSlot(sl);
            if Readable(sl.value, NESTING_LIMIT) then
              Parse(t) == Some(Meaning(sl.value)) && TextAt(t + [NUL], true) == Parsed(Meaning(sl.value), |t|)
            else Parse(t) == None && TextAt(t + [NUL], true) == Failed
  {
    hide SpellSlot, Spell, ValueAt, SkipSpace, SyntaxOk, Readable, Meaning, White, TextAt, NonSpace, TextStart;
    var t := [0xEF, 0xBB, 0xBF] + SpellSlot(sl);
    var i := 3 + |sl.before|;
    SlotThenNul(sl);
    MarkedParts(sl, t + [NUL]);
    ValueReads(t + [NUL], i, sl.value, 0);
    if Readable(sl.value, NESTING_LIMIT) {
      WholeText(t, i, Meaning(sl.value), i + |Spell(sl.value)|);
    } else {
      NoText(t, i);
    }
  }

  lemma MarkedParts(sl: Slot, s: text)
    requires SlotOk(sl) && s == [0xEF, 0xBB, 0xBF] + SpellSlot(sl) + [NUL]
    ensures var i := 3 + |sl.before|;
            var e := i + |Spell(sl.value)|;
            && TextStart(s) == 3 && SkipSpace(s, 3) == i
            && At(s, i, Spell(sl.value)) && EndsAt(s, e)
            && e + |sl.after| + 1 == |s| && SkipSpace(s, e) == e + |sl.after|
  {
    hide Spell, SpellSlot, SkipSpace, At, SyntaxOk, White, EndsAt, TextStart;
    var a, b, c := sl.before, Spell(sl.value), sl.after;
    SlotThenNul(sl);
    SlotFacts(sl);
    FirstOf(sl.value);
    MarkFirst(SpellSlot(sl));
    Marked(s, SpellSlot(sl) + [NUL]);
    AtSplit(s, 3, a, b + (c + [NUL]));
    AtSplit(s, 3 + |a|, b, c + [NUL]);
    AtFirst(s, 3 + |a|, b);
    WhiteSkips(s, 3, a);
    EndIsNoNumber(s, 3 + |a| + |b|, c);
    SkipsToEnd(s, 3 + |a| + |b|, c);
  }

  lemma MarkFirst(t: text)
    ensures [0xEF, 0xBB, 0xBF] + t + [NUL] == [0xEF, 0xBB, 0xBF] + (t + [NUL])
  {}

  lemma Marked(s: text, t: text)
    requires |t| >= 2 && s == [0xEF, 0xBB, 0xBF] + t
    ensures TextStart(s) == 3 && At(s, 3, t) && |s| == 3 + |t|
  {
    assert s[3..] == t;
    assert s[..3] == BYTE_ORDER_MARK;
  }

  /** What the text entry points do where no value is read. */
  lemma NoText(t: text, i: nat)
    requires i <= |t| && SkipSpace(t + [NUL], TextStart(t + [NUL])) == i
    requires ValueAt(t + [NUL], i, 0) == Failed
    ensures Parse(t) == None && TextAt(t + [NUL], true) == Failed
  {
    hide ValueAt, SkipSpace, TextStart;
  }

  /** What the text entry points do with a value at position `i` that ends at `e`. */
  lemma WholeText(t: text, i: nat, v: Json, e: nat)
    requires i <= |t| && e <= |t|
    requires SkipSpace(t + [NUL], TextStart(t + [NUL])) == i
    requires ValueAt(t + [NUL], i, 0) == Parsed(v, e)
    requires SkipSpace(t + [NUL], e) == |t|
    ensures Parse(t) == Some(v) && TextAt(t + [NUL], true) == Parsed(v, |t|)
  {
    hide ValueAt, SkipSpace, TextStart;
  }

  lemma TextParts(sl: Slot)
    requires SlotOk(sl)
    ensures var s, e := SpellSlot(sl) + [NUL], |sl.before| + |Spell(sl.value)|;
            && TextStart(s) == 0 && SkipSpace(s, 0) == |sl.before|
            && At(s, |sl.before|, Spell(sl.value)) && EndsAt(s, e)
            && e + |sl.after| + 1 == |s| && SkipSpace(s, e) == e + |sl.after|
  {
    hide Spell, SpellSlot, SkipSpace, At, SyntaxOk, White, TextStart, EndsAt;
    var a, b, c := sl.before, Spell(sl.value), sl.after;
    SlotThenNul(sl);
    SlotFacts(sl);
    ThreeParts(SpellSlot(sl) + [NUL], a, b, c);
    FirstOf(sl.value);
    AtFirst(SpellSlot(sl) + [NUL], |a|, b);
    WhiteSkips(SpellSlot(sl) + [NUL], 0, a);
    StartsPlain(SpellSlot(sl) + [NUL], a, b);
    EndIsNoNumber(SpellSlot(sl) + [NUL], |a| + |b|, c);
    SkipsToEnd(SpellSlot(sl) + [NUL], |a| + |b|, c);
  }

  lemma SlotFacts(sl: Slot)
    requires SlotOk(sl)
    ensures White(sl.before) && SyntaxOk(sl.value) && White(sl.after)
  {}

  lemma SlotThenNul(sl: Slot)
    ensures SpellSlot(sl) + [NUL] == sl.before + (Spell(sl.value) + (sl.after + [NUL]))
    ensures |SpellSlot(sl)| == |sl.before| + |Spell(sl.value)| + |sl.after|
  {
    hide Spell;
  }

  lemma ThreeParts(s: text, a: text, b: text, c: text)
    requires s == a + (b + (c + [NUL]))
    ensures At(s, 0, a) && At(s, |a|, b) && At(s, |a| + |b|, c + [NUL])
  {
    hide At;
    WholeIsAt(s);
    AtSplit(s, 0, a, b + (c + [NUL]));
    AtSplit(s, |a|, b, c + [NUL]);
  }

  lemma WholeIsAt(s: text)
    ensures At(s, 0, s)
  {}

  lemma EndIsNoNumber(s: text, e: nat, after: text)
    requires At(s, e, after + [NUL]) && White(after)
    ensures EndsAt(s, e)
  {
    AtFirst(s, e, after + [NUL]);
  }

  /** The text does not start with a byte order mark. */
  lemma StartsPlain(s: text, a: text, b: text)
    requires At(s, 0, a) && White(a) && At(s, |a|, b) && b != [] && b[0] != 0xEF
    ensures TextStart(s) == 0 && s != []
  {
    AtFirst(s, |a|, b);
    if a != [] {
      AtFirst(s, 0, a);
    }
    assert |s| > 4 ==> s[..3][0] == s[0];
  }
}
