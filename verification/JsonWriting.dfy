/**
 What the printer writes is JSON: every rendered tree is a text of the grammar
 of RFC 8259, and that text denotes the tree. This does not speak of the parser.
 */
module JsonWriting {
  import opened CText
  import opened Utf16
  import opened JsonString
  import opened JsonNumber
  import opened JsonValue
  import opened JsonGrammar

  // ---------------------------------------------------------------------
  // Strings
  // ---------------------------------------------------------------------

  /** How the printer spells a character. */
  function PieceOf(c: uchar): Piece {
    match c
    case 0x22 => Short('\"' as uchar)
    case 0x5C => Short('\\' as uchar)
    case 0x08 => Short('b' as uchar)
    case 0x0C => Short('f' as uchar)
    case 0x0A => Short('n' as uchar)
    case 0x0D => Short('r' as uchar)
    case 0x09 => Short('t' as uchar)
    case _ => if c < 32 then Unicode(c as nat, EscapeChar(c)) else Raw(c)
  }

  lemma SmallUnit(t: text, n: nat)
    requires |t| == 6 && n < 32 && SpellsDigit(t[2], 0) && SpellsDigit(t[3], 0)
    requires SpellsDigit(t[4], n / 16) && SpellsDigit(t[5], n % 16)
    ensures SpellsUnit(t, 2, n)
  {
    hide SpellsDigit;
    assert n / 0x1000 == 0 && n / 0x100 % 16 == 0 && n / 16 % 16 == n / 16;
  }

  lemma CodeOk(c: uchar)
    requires PieceOf(c).Unicode?
    ensures PieceOk(PieceOf(c))
  {
    hide EscapeChar, HexDigit, SpellsUnit;
    var t, u, n := EscapeChar(c), Lit("\\u00"), c as int;
    PlainOrCode(c);
    assert t == u + [HexDigit(n / 16), HexDigit(n % 16)];
    assert t[0] == u[0] && t[1] == u[1] && t[2] == u[2] && t[3] == u[3];
    HexDigitIs(n / 16);
    HexDigitIs(n % 16);
    HexDigitIs(0);
    SmallUnit(t, n);
  }

  /** The piece is spelled like the escape and denotes the character. */
  lemma PieceOfChar(c: uchar)
    ensures PieceOk(PieceOf(c)) && !IsHigh(PieceOf(c)) && !IsLow(PieceOf(c))
    ensures PieceText(PieceOf(c)) == EscapeChar(c) && PieceBytes(PieceOf(c)) == [c]
  {
    hide UnitEscape;
    if PieceOf(c).Unicode? { CodeOk(c); }
  }

  function PiecesOf(s: text): seq<Piece> {
    if s == [] then [] else [PieceOf(s[0])] + PiecesOf(s[1..])
  }

  lemma {:induction false} PiecesOfString(s: text)
    ensures PiecesOk(PiecesOf(s)) && Paired(PiecesOf(s))
    ensures PiecesText(PiecesOf(s)) == Escape(s) && PiecesBytes(PiecesOf(s)) == s
  {
    hide PieceOf, PieceOk, PieceText, EscapeChar, PieceBytes, IsHigh, IsLow, Paired;
    var ps := PiecesOf(s);
    if s == [] {
      NothingPaired();
    } else {
      PieceOfChar(s[0]);
      PiecesOfString(s[1..]);
      assert ps[0] == PieceOf(s[0]) && ps[1..] == PiecesOf(s[1..]);
      assert PiecesOk(ps) by { assert forall i :: 0 < i < |ps| ==> ps[i] == ps[1..][i - 1]; }
      PairedStep(ps);
    }
  }

  /** A quoted string is a text of the grammar that denotes the string. */
  lemma QuoteIsText(s: text)
    requires NulFree(s)
    ensures PiecesOk(PiecesOf(s)) && Paired(PiecesOf(s))
    ensures QuotedText(PiecesOf(s)) == Quote(s) && StringMeaning(PiecesOf(s)) == s
  {
    hide PiecesOk, Paired, PiecesText, PiecesBytes, Escape;
    PiecesOfString(s);
    CStrOfTerminated(s, []);
  }

  // ---------------------------------------------------------------------
  // Numbers
  // ---------------------------------------------------------------------

  function NumberOf(n: int): NumberSyntax {
    NumberSyntax(n < 0, Digits(if n < 0 then -n else n), None, None)
  }

  lemma {:induction false} NoLeadingZero(n: nat)
    ensures |Digits(n)| > 1 ==> Digits(n)[0] != '0' as uchar
    ensures n > 0 ==> Digits(n)[0] != '0' as uchar
  {
    if n >= 10 {
      NoLeadingZero(n / 10);
      assert Digits(n)[0] == Digits(n / 10)[0];
    }
  }

  /** A printed integer is a number of the grammar, without fraction or exponent, and denotes the integer. */
  lemma DecimalIsNumber(n: int)
    ensures NumberOk(NumberOf(n)) && NumberText(NumberOf(n)) == Decimal(n) && NumberValue(NumberOf(n)) == n as real
  {
    hide Digits;
    var m := if n < 0 then -n else n;
    NoLeadingZero(m);
    DigitsSpell(m);
    NatIsWhole(Digits(m), |Digits(m)|);
    assert Digits(m)[..|Digits(m)|] == Digits(m);
  }

  // ---------------------------------------------------------------------
  // Trees
  // ---------------------------------------------------------------------

  /** A line break and tabs, when formatting. */
  function NewLine(fmt: bool, depth: nat): text {
    if fmt then [NEWLINE] + Tabs(depth) else []
  }

  /** How the printer spells a tree. */
  ghost function SyntaxOf(t: Json, fmt: bool, depth: nat): Syntax
    decreases t
  {
    match t
    case Number(r) => Numeral(NumberOf(IntValue(r)))
    case String(s) => Text(PiecesOf(s))
    case Array(items) => List([], SlotsOf(items, fmt, depth + 1, true))
    case Object(ms) => Record(NewLine(fmt, depth), FieldsOf(ms, fmt, depth + 1))
    case _ => Syntax.Literal(t)
  }

  ghost function SlotsOf(items: seq<Json>, fmt: bool, depth: nat, first: bool): (slots: seq<Slot>)
    ensures |slots| == |items|
    decreases items
  {
    if items == [] then []
    else [Slot(if fmt && !first then [SPACE] else [], SyntaxOf(items[0], fmt, depth), [])]
         + SlotsOf(items[1..], fmt, depth, false)
  }

  ghost function FieldOf(m: Member, fmt: bool, depth: nat, last: bool): Field
    requires depth > 0
    decreases m
  {
    Field(NewLine(fmt, depth), PiecesOf(m.key), [],
          Slot(if fmt then [TAB] else [], SyntaxOf(m.value, fmt, depth), if last then NewLine(fmt, depth - 1) else []))
  }

  ghost function FieldsOf(ms: seq<Member>, fmt: bool, depth: nat): (fields: seq<Field>)
    requires depth > 0
    ensures |fields| == |ms|
    decreases ms
  {
    if ms == [] then [] else [FieldOf(ms[0], fmt, depth, |ms| == 1)] + FieldsOf(ms[1..], fmt, depth)
  }

  lemma SlotsStep(items: seq<Json>, fmt: bool, depth: nat, first: bool)
    requires items != []
    ensures var slots := SlotsOf(items, fmt, depth, first);
            && slots[0] == Slot(if fmt && !first then [SPACE] else [], SyntaxOf(items[0], fmt, depth), [])
            && slots[1..] == SlotsOf(items[1..], fmt, depth, false)
  {
    hide SyntaxOf;
  }

  lemma FieldsStep(ms: seq<Member>, fmt: bool, depth: nat)
    requires ms != [] && depth > 0
    ensures var fields := FieldsOf(ms, fmt, depth);
            fields[0] == FieldOf(ms[0], fmt, depth, |ms| == 1) && fields[1..] == FieldsOf(ms[1..], fmt, depth)
  {
    hide FieldOf;
  }

  /** One rendered element as a slot. */
  lemma ItemText(item: Json, fmt: bool, depth: nat, gap: text)
    requires Spell(SyntaxOf(item, fmt, depth)) == Render(item, fmt, depth)
    requires SyntaxOk(SyntaxOf(item, fmt, depth)) && White(gap)
    ensures SpellSlot(Slot(gap, SyntaxOf(item, fmt, depth), [])) == gap + Render(item, fmt, depth)
    ensures SlotOk(Slot(gap, SyntaxOf(item, fmt, depth), []))
  {
    hide Spell, Render, SyntaxOf, SyntaxOk;
  }

  lemma Separated(fmt: bool, gap: text, item: text, rest: text)
    ensures (gap + item) + ([COMMA] + ((if fmt then [SPACE] else []) + rest)) ==
            gap + (item + Separator(fmt) + rest)
  {
    assert Separator(fmt) == [COMMA] + if fmt then [SPACE] else [];
  }

  lemma {:induction false} ItemsAreJson(items: seq<Json>, fmt: bool, depth: nat, first: bool)
    requires forall i :: 0 <= i < |items| ==> Plain(items[i])
    ensures var slots := SlotsOf(items, fmt, depth, first);
            && (forall i :: 0 <= i < |slots| ==> SlotOk(slots[i]))
            && SlotMeanings(slots) == items
            && (items != [] ==> SpellSlots(slots) ==
                                (if fmt && !first then [SPACE] else []) + RenderItems(items, fmt, depth))
    decreases items
  {
    hide SyntaxOf, Spell, Render, Meaning, SyntaxOk, SpellSlot, SlotsOf, Plain, Separator;
    if items == [] {
      NoSlots(fmt, depth, first);
    } else {
      var slots := SlotsOf(items, fmt, depth, first);
      PrintedIsJson(items[0], fmt, depth);
      ItemsAreJson(items[1..], fmt, depth, false);
      SlotsStep(items, fmt, depth, first);
      assert White(slots[0].before);
      ItemText(items[0], fmt, depth, slots[0].before);
      hide SlotOk;
      assert forall i :: 0 < i < |slots| ==> slots[i] == slots[1..][i - 1];
      assert items == [items[0]] + items[1..];
      if |items| == 1 {
        assert RenderItems(items[1..], fmt, depth) == [];
      } else {
        Separated(fmt, slots[0].before, Render(items[0], fmt, depth), RenderItems(items[1..], fmt, depth));
      }
    }
  }

  lemma NoSlots(fmt: bool, depth: nat, first: bool)
    ensures SlotsOf([], fmt, depth, first) == []
  {}

  /** The line break in front of a member, when formatting. */
  function Break(fmt: bool): text {
    if fmt then [NEWLINE] else []
  }

  lemma FieldIsOk(m: Member, fmt: bool, depth: nat, last: bool)
    requires depth > 0 && PiecesOk(PiecesOf(m.key)) && SyntaxOk(SyntaxOf(m.value, fmt, depth))
    ensures var f := FieldOf(m, fmt, depth, last);
            FieldOk(f) && f.key == PiecesOf(m.key) && f.slot.value == SyntaxOf(m.value, fmt, depth)
  {
    hide SyntaxOf, SyntaxOk, PiecesOk;
  }

  lemma Flat(a: text, b: text, c: text, d: text, e: text, z: text)
    ensures (a + b) + (c + (d + (e + z))) == a + (b + c + d + e) + z
  {
    var line := b + c + d + e;
    assert line == b + (c + (d + e));
    assert a + line + z == a + (line + z);
    assert line + z == b + (c + (d + (e + z)));
  }

  lemma NewLineParts(fmt: bool, depth: nat)
    ensures NewLine(fmt, depth) == Break(fmt) + Indent(fmt, depth)
  {}

  lemma ColonParts(fmt: bool, y: text)
    ensures [] + ([COLON] + ((if fmt then [TAB] else []) + y)) == KeySeparator(fmt) + y
  {
    assert KeySeparator(fmt) == [COLON] + if fmt then [TAB] else [];
  }

  /** The parts of a field. */
  lemma FieldParts(m: Member, fmt: bool, depth: nat, last: bool)
    requires depth > 0
    ensures SpellField(FieldOf(m, fmt, depth, last)) ==
            (Break(fmt) + Indent(fmt, depth))
            + (QuotedText(PiecesOf(m.key)) + (KeySeparator(fmt) + (Spell(SyntaxOf(m.value, fmt, depth))
            + (if last then Break(fmt) + Indent(fmt, depth - 1) else []))))
  {
    hide Spell, SyntaxOf, QuotedText, NewLine, Break, Indent, KeySeparator;
    NewLineParts(fmt, depth);
    NewLineParts(fmt, depth - 1);
    var slot := FieldOf(m, fmt, depth, last).slot;
    ColonParts(fmt, Spell(slot.value) + slot.after);
  }

  /** A field in one line of text, with what stands behind its value. */
  lemma FieldText(m: Member, fmt: bool, depth: nat, last: bool)
    requires depth > 0 && NulFree(m.key) && Spell(SyntaxOf(m.value, fmt, depth)) == Render(m.value, fmt, depth)
    ensures SpellField(FieldOf(m, fmt, depth, last)) ==
            Break(fmt) + (Indent(fmt, depth) + Quote(m.key) + KeySeparator(fmt) + Render(m.value, fmt, depth))
            + (if last then Break(fmt) + Indent(fmt, depth - 1) else [])
  {
    hide Spell, Render, SyntaxOf, QuotedText, Quote, SpellField, FieldOf, Indent, KeySeparator, Break;
    QuoteIsText(m.key);
    var after := if last then Break(fmt) + Indent(fmt, depth - 1) else [];
    FieldParts(m, fmt, depth, last);
    Flat(Break(fmt), Indent(fmt, depth), Quote(m.key), KeySeparator(fmt), Render(m.value, fmt, depth), after);
  }

  /** A rendered member in front of others, as a field. */
  lemma MemberText(m: Member, fmt: bool, depth: nat)
    requires depth > 0 && NulFree(m.key) && Spell(SyntaxOf(m.value, fmt, depth)) == Render(m.value, fmt, depth)
    ensures Break(fmt) + RenderMember(m, fmt, depth, false) ==
            SpellField(FieldOf(m, fmt, depth, false)) + ([COMMA] + Break(fmt))
  {
    hide Spell, Render, SyntaxOf, QuotedText, Quote, SpellField, FieldOf, Indent, KeySeparator;
    FieldText(m, fmt, depth, false);
    var line := Indent(fmt, depth) + Quote(m.key) + KeySeparator(fmt) + Render(m.value, fmt, depth);
    assert RenderMember(m, fmt, depth, false) == line + ([COMMA] + Break(fmt));
  }

  /** The last member, with the line break and the indentation behind it. */
  lemma LastText(m: Member, fmt: bool, depth: nat)
    requires depth > 0 && NulFree(m.key) && Spell(SyntaxOf(m.value, fmt, depth)) == Render(m.value, fmt, depth)
    ensures Break(fmt) + RenderMember(m, fmt, depth, true) + Indent(fmt, depth - 1) ==
            SpellField(FieldOf(m, fmt, depth, true))
  {
    hide Spell, Render, SyntaxOf, QuotedText, Quote, SpellField, FieldOf, Indent, KeySeparator;
    FieldText(m, fmt, depth, true);
    var line := Indent(fmt, depth) + Quote(m.key) + KeySeparator(fmt) + Render(m.value, fmt, depth);
    assert RenderMember(m, fmt, depth, true) == line + Break(fmt);
  }

  lemma Shift(br: text, a: text, b: text, indent: text, f: text)
    requires br + a == f + ([COMMA] + br)
    ensures br + (a + b) + indent == f + ([COMMA] + (br + b + indent))
  {
    assert br + (a + b) == (br + a) + b == f + ([COMMA] + (br + b));
  }

  lemma {:induction false} MembersAreJson(ms: seq<Member>, fmt: bool, depth: nat)
    requires depth > 0 && forall i :: 0 <= i < |ms| ==> NulFree(ms[i].key) && Plain(ms[i].value)
    ensures var fields := FieldsOf(ms, fmt, depth);
            && (forall i :: 0 <= i < |fields| ==> FieldOk(fields[i]))
            && FieldMeanings(fields) == ms
            && (ms != [] ==>
                  SpellFields(fields) == Break(fmt) + RenderMembers(ms, fmt, depth) + Indent(fmt, depth - 1))
    decreases ms
  {
    hide SyntaxOf, Spell, Render, Meaning, SyntaxOk, SpellField, RenderMember, FieldsOf, Plain, PiecesOk, StringMeaning;
    hide FieldOf, Indent, Break;
    if ms == [] {
      NoFields(fmt, depth);
    } else {
      var fields := FieldsOf(ms, fmt, depth);
      PrintedIsJson(ms[0].value, fmt, depth);
      QuoteIsText(ms[0].key);
      MembersAreJson(ms[1..], fmt, depth);
      FieldsStep(ms, fmt, depth);
      FieldIsOk(ms[0], fmt, depth, |ms| == 1);
      assert forall i :: 0 < i < |fields| ==> fields[i] == fields[1..][i - 1];
      assert ms == [ms[0]] + ms[1..];
      if |ms| == 1 {
        assert RenderMembers(ms[1..], fmt, depth) == [];
        LastText(ms[0], fmt, depth);
      } else {
        MemberText(ms[0], fmt, depth);
        Shift(Break(fmt), RenderMember(ms[0], fmt, depth, false), RenderMembers(ms[1..], fmt, depth),
              Indent(fmt, depth - 1), SpellField(fields[0]));
      }
    }
  }

  lemma NoFields(fmt: bool, depth: nat)
    requires depth > 0
    ensures FieldsOf([], fmt, depth) == []
  {}

  lemma ArrayText(items: seq<Json>, fmt: bool, depth: nat)
    requires var slots := SlotsOf(items, fmt, depth + 1, true);
             items != [] ==> SpellSlots(slots) == RenderItems(items, fmt, depth + 1)
    ensures Spell(SyntaxOf(Array(items), fmt, depth)) == Render(Array(items), fmt, depth)
  {
    hide SlotsOf, SpellSlots;
  }

  lemma ObjectText(ms: seq<Member>, fmt: bool, depth: nat)
    requires var fields := FieldsOf(ms, fmt, depth + 1);
             ms != [] ==> SpellFields(fields) == Break(fmt) + RenderMembers(ms, fmt, depth + 1) + Indent(fmt, depth)
    ensures Spell(SyntaxOf(Object(ms), fmt, depth)) == Render(Object(ms), fmt, depth)
  {
    hide FieldsOf, SpellFields, NewLine, Break, Indent, Opening;
    NewLineParts(fmt, depth);
    OpeningParts(fmt);
    Bracketed(Break(fmt), RenderMembers(ms, fmt, depth + 1), Indent(fmt, depth));
  }

  lemma OpeningParts(fmt: bool)
    ensures Opening(fmt) == [OPEN_BRACE] + Break(fmt)
  {}

  lemma Bracketed(a: text, b: text, c: text)
    ensures [OPEN_BRACE] + a + b + c + [CLOSE_BRACE] == [OPEN_BRACE] + ((a + b + c) + [CLOSE_BRACE])
    ensures a + [] + c == a + c
  {}

  /**
   Every rendered tree is a text of the grammar, formatted or not, and that text
   denotes exactly the tree.
   */
  lemma {:induction false} PrintedIsJson(t: Json, fmt: bool, depth: nat)
    requires Plain(t)
    ensures var c := SyntaxOf(t, fmt, depth);
            SyntaxOk(c) && Spell(c) == Render(t, fmt, depth) && Meaning(c) == t
    decreases t
  {
    hide PiecesOk, Paired, QuotedText, Quote, StringMeaning, NumberOk, NumberText, NumberValue, Decimal;
    hide SlotsOf, FieldsOf, SpellSlots, SpellFields, SlotMeanings, FieldMeanings, RenderItems, RenderMembers;
    match t
    case Number(r) => DecimalIsNumber(IntValue(r));
    case String(s) => QuoteIsText(s);
    case Array(items) =>
      ItemsAreJson(items, fmt, depth + 1, true);
      ArrayText(items, fmt, depth);
    case Object(ms) =>
      MembersAreJson(ms, fmt, depth + 1);
      ObjectText(ms, fmt, depth);
    case _ => WordsAgree();
  }
}
