/**
 Parsing undoes printing (RFC 8259): for every tree of C strings and integers
 that nests within the limit, reading its rendering, formatted or not, rebuilds
 the tree with order and duplicate keys preserved and consumes all of it.
 */
module JsonRoundTrip {
  import opened CText
  import opened JsonString
  import opened JsonNumber
  import opened JsonValue
  import opened JsonParse

  // ---------------------------------------------------------------------
  // White space between tokens
  // ---------------------------------------------------------------------

  lemma {:induction false} NonSpaceIs(s: text, i: nat, e: nat)
    requires i <= e < |s| && s[e] > 32
    requires forall k :: i <= k < e ==> s[k] <= 32
    ensures NonSpace(s, i) == e
    decreases e - i
  {
    if i < e { NonSpaceIs(s, i + 1, e); }
  }

  /** A stretch of white space in front of a token is skipped exactly. */
  lemma SkipsTo(s: text, i: nat, blank: text)
    requires At(s, i, blank) && i + |blank| < |s| && s[i + |blank|] > 32
    requires forall k :: 0 <= k < |blank| ==> blank[k] <= 32
    ensures SkipSpace(s, i) == i + |blank|
  {
    forall k | i <= k < i + |blank| ensures s[k] <= 32 {
      assert s[k] == s[i..i + |blank|][k - i];
    }
    NonSpaceIs(s, i, i + |blank|);
  }

  lemma SkipsNothing(s: text, i: nat)
    requires i < |s| && s[i] > 32
    ensures SkipSpace(s, i) == i
  {}

  // ---------------------------------------------------------------------
  // The first character tells the kinds of values apart
  // ---------------------------------------------------------------------

  lemma FirstChar(t: Json, fmt: bool, depth: nat)
    requires Plain(t)
    ensures Render(t, fmt, depth) != [] && Render(t, fmt, depth)[0] > 32
    ensures Render(t, fmt, depth)[0] != CLOSE_BRACKET && Render(t, fmt, depth)[0] != 0xEF
  {
    RenderNulFree(t, fmt, depth);
  }

  lemma WordNeedsFirstChar(s: text, i: nat, word: text)
    requires i < |s| && word != [] && s[i] != word[0]
    ensures !StartsWith(s, i, word)
  {
    assert i + |word| <= |s| ==> s[i..i + |word|][0] == s[i];
  }

  lemma NoWordAt(s: text, i: nat)
    requires i < |s| && s[i] != 0x6E && s[i] != 0x66 && s[i] != 0x74
    ensures !StartsWith(s, i, NULL_TEXT) && !StartsWith(s, i, FALSE_TEXT) && !StartsWith(s, i, TRUE_TEXT)
  {
    hide StartsWith;
    WordNeedsFirstChar(s, i, NULL_TEXT);
    WordNeedsFirstChar(s, i, FALSE_TEXT);
    WordNeedsFirstChar(s, i, TRUE_TEXT);
  }

  // ---------------------------------------------------------------------
  // Reading a rendering
  // ---------------------------------------------------------------------

  /** Nothing behind position `e` could be taken for more of a number. */
  ghost predicate EndsAt(s: text, e: nat) {
    e < |s| ==> !IsNumberChar(s[e])
  }

  lemma {:induction false} ValueRoundTrip(s: text, i: nat, t: Json, fmt: bool, indent: nat, depth: nat)
    requires Plain(t) && NestsWithin(t, NESTING_LIMIT - depth)
    requires At(s, i, Render(t, fmt, indent)) && EndsAt(s, i + |Render(t, fmt, indent)|)
    ensures ValueAt(s, i, depth) == Parsed(t, i + |Render(t, fmt, indent)|)
    decreases t
  {
    hide ItemsAt, MembersAt, StringAt, NumberAt, SkipSpace;
    var r := Render(t, fmt, indent);
    FirstChar(t, fmt, indent);
    assert s[i] == r[0];
    match t
    case Null =>
    case False =>
    case True =>
    case Number(v) =>
      NoWordAt(s, i);
      DecimalRoundTrip(s, i, IntValue(v));
    case String(str) =>
      NoWordAt(s, i);
      QuoteRoundTrip(s, i, str);
    case Array(items) =>
      NoWordAt(s, i);
      ArrayRoundTrip(s, i, items, fmt, indent, depth);
    case Object(ms) =>
      NoWordAt(s, i);
      ObjectRoundTrip(s, i, ms, fmt, indent, depth);
  }

  lemma {:induction false} ArrayRoundTrip(s: text, i: nat, items: seq<Json>, fmt: bool, indent: nat, depth: nat)
    requires Plain(Array(items)) && NestsWithin(Array(items), NESTING_LIMIT - depth)
    requires At(s, i, Render(Array(items), fmt, indent)) && s[i] == OPEN_BRACKET
    ensures ArrayAt(s, i, depth) == Parsed(Array(items), i + |Render(Array(items), fmt, indent)|)
    decreases items, 1
  {
    hide ItemsAt, SkipSpace, At, RenderItems;
    var body := RenderItems(items, fmt, indent + 1);
    assert Render(Array(items), fmt, indent) == [OPEN_BRACKET] + (body + [CLOSE_BRACKET]);
    AtSplit(s, i, [OPEN_BRACKET], body + [CLOSE_BRACKET]);
    AtFirstAndRest(s, i + 1, body + [CLOSE_BRACKET]);
    ArrayBodyStart(items, fmt, indent + 1);
    SkipsNothing(s, i + 1);
    if items != [] {
      ItemsRoundTrip(s, i + 1, items, fmt, indent + 1, depth + 1);
    }
  }

  lemma ArrayBodyStart(items: seq<Json>, fmt: bool, indent: nat)
    requires items != [] ==> Plain(items[0])
    ensures var t := RenderItems(items, fmt, indent) + [CLOSE_BRACKET];
            t[0] > 32 && (t[0] == CLOSE_BRACKET <==> items == []) && (items == [] ==> |t| == 1)
  {
    hide Render;
    if items != [] { FirstChar(items[0], fmt, indent); }
  }

  lemma {:induction false} ItemsRoundTrip(s: text, i: nat, items: seq<Json>, fmt: bool, indent: nat, depth: nat)
    requires items != []
    requires forall k :: 0 <= k < |items| ==> Plain(items[k]) && NestsWithin(items[k], NESTING_LIMIT - depth)
    requires At(s, i, RenderItems(items, fmt, indent) + [CLOSE_BRACKET])
    ensures ItemsAt(s, i, depth) == Items(items, i + |RenderItems(items, fmt, indent)| + 1)
    decreases items, 0
  {
    hide ValueAt, SkipSpace, Render, ItemsAt, RenderItems, At, Plain, NestsWithin;
    var first := Render(items[0], fmt, indent);
    var after := i + |first|;
    if |items| == 1 {
      OneItemText(s, i, items, fmt, indent);
      ValueRoundTrip(s, i, items[0], fmt, indent, depth);
      SkipsNothing(s, after);
      ItemsStep(s, i, depth, items[0], after);
      assert items == [items[0]] + [];
    } else {
      var next := after + |Separator(fmt)|;
      ManyItemsText(s, i, items, fmt, indent);
      ValueRoundTrip(s, i, items[0], fmt, indent, depth);
      SkipsNothing(s, after);
      ItemsStep(s, i, depth, items[0], after);
      ItemsRoundTrip(s, next, items[1..], fmt, indent, depth);
      assert items == [items[0]] + items[1..];
    }
  }

  lemma OneItemText(s: text, i: nat, items: seq<Json>, fmt: bool, indent: nat)
    requires |items| == 1
    requires At(s, i, RenderItems(items, fmt, indent) + [CLOSE_BRACKET])
    ensures var first := Render(items[0], fmt, indent);
            && At(s, i, first) && IsAt(s, i + |first|, CLOSE_BRACKET) && EndsAt(s, i + |first|)
            && RenderItems(items, fmt, indent) == first
  {
    hide Render;
    var first := Render(items[0], fmt, indent);
    assert RenderItems(items, fmt, indent) == first + [] + [];
    AtSplit(s, i, first, [CLOSE_BRACKET]);
  }

  lemma ManyItemsText(s: text, i: nat, items: seq<Json>, fmt: bool, indent: nat)
    requires |items| > 1 && Plain(items[1])
    requires At(s, i, RenderItems(items, fmt, indent) + [CLOSE_BRACKET])
    ensures var first := Render(items[0], fmt, indent);
            var rest := RenderItems(items[1..], fmt, indent);
            var next := i + |first| + |Separator(fmt)|;
            && At(s, i, first) && IsAt(s, i + |first|, COMMA) && EndsAt(s, i + |first|)
            && SkipSpace(s, i + |first| + 1) == next && At(s, next, rest + [CLOSE_BRACKET])
            && |RenderItems(items, fmt, indent)| == next - i + |rest|
  {
    hide Render, SkipSpace, Plain, At, RenderItems;
    var first := Render(items[0], fmt, indent);
    var rest := RenderItems(items[1..], fmt, indent);
    var sep := Separator(fmt);
    var after := i + |first|;
    ItemsSplit(items, fmt, indent);
    AtSplit(s, i, first, sep + (rest + [CLOSE_BRACKET]));
    AtSplit(s, after, sep, rest + [CLOSE_BRACKET]);
    SeparatorAt(s, after, fmt);
    FirstItem(items[1..], fmt, indent);
    AtFirst(s, after + |sep|, rest + [CLOSE_BRACKET]);
    SkipsTo(s, after + 1, sep[1..]);
  }

  lemma ItemsSplit(items: seq<Json>, fmt: bool, indent: nat)
    requires |items| > 1
    ensures RenderItems(items, fmt, indent) + [CLOSE_BRACKET]
              == Render(items[0], fmt, indent)
                 + (Separator(fmt) + (RenderItems(items[1..], fmt, indent) + [CLOSE_BRACKET]))
  {
    hide Render, Separator;
    var first, sep, rest := Render(items[0], fmt, indent), Separator(fmt), RenderItems(items[1..], fmt, indent);
    assert first + sep + rest + [CLOSE_BRACKET] == first + (sep + (rest + [CLOSE_BRACKET]));
  }

  lemma AtFirst(s: text, i: nat, part: text)
    requires At(s, i, part) && part != []
    ensures i < |s| && s[i] == part[0]
  {
    assert s[i..i + |part|][0] == s[i];
  }

  lemma FirstItem(items: seq<Json>, fmt: bool, indent: nat)
    requires items != [] && Plain(items[0])
    ensures RenderItems(items, fmt, indent) != [] && RenderItems(items, fmt, indent)[0] > 32
  {
    FirstChar(items[0], fmt, indent);
  }

  lemma SeparatorAt(s: text, i: nat, fmt: bool)
    requires At(s, i, Separator(fmt))
    ensures s[i] == COMMA && At(s, i + 1, Separator(fmt)[1..])
  {
    AtFirst(s, i, Separator(fmt));
    assert s[i + 1..i + |Separator(fmt)|] == s[i..i + |Separator(fmt)|][1..];
  }

  // ---------------------------------------------------------------------
  // Objects
  // ---------------------------------------------------------------------

  ghost predicate AllSpace(t: text) {
    forall k :: 0 <= k < |t| ==> t[k] <= 32
  }

  /** White space `a`, then white space `b`, then a token. */
  lemma SkipsBoth(s: text, i: nat, a: text, b: text)
    requires At(s, i, a) && At(s, i + |a|, b) && AllSpace(a) && AllSpace(b)
    requires i + |a| + |b| < |s| && s[i + |a| + |b|] > 32
    ensures SkipSpace(s, i) == i + |a| + |b|
  {
    hide SkipSpace;
    AtJoin(s, i, a, b);
    SkipsTo(s, i, a + b);
  }

  lemma AtFirstAndRest(s: text, i: nat, part: text)
    requires At(s, i, part) && part != []
    ensures i < |s| && s[i] == part[0] && At(s, i + 1, part[1..])
  {
    assert s[i..i + |part|][0] == s[i];
    assert s[i + 1..i + |part|] == s[i..i + |part|][1..];
  }

  lemma {:induction false} ObjectRoundTrip(s: text, i: nat, ms: seq<Member>, fmt: bool, indent: nat, depth: nat)
    requires Plain(Object(ms)) && NestsWithin(Object(ms), NESTING_LIMIT - depth)
    requires At(s, i, Render(Object(ms), fmt, indent)) && s[i] == OPEN_BRACE
    ensures ObjectAt(s, i, depth) == Parsed(Object(ms), i + |Render(Object(ms), fmt, indent)|)
    decreases ms, 1
  {
    hide MembersAt, SkipSpace, RenderMembers, Render, At, Opening, Closing, Indent, Quote;
    var p := i + |Opening(fmt)|;
    ObjectText(s, i, ms, fmt, indent);
    if ms == [] {
      EmptyObjectText(s, i, fmt, indent);
    } else {
      ObjectStart(s, i, ms, fmt, indent);
      MembersRoundTrip(s, p, ms, fmt, indent, depth + 1);
    }
  }

  lemma ObjectText(s: text, i: nat, ms: seq<Member>, fmt: bool, indent: nat)
    requires At(s, i, Render(Object(ms), fmt, indent))
    ensures var open, body := Opening(fmt), RenderMembers(ms, fmt, indent + 1);
            && At(s, i, open) && At(s, i + |open|, body + Closing(fmt, indent))
            && |Render(Object(ms), fmt, indent)| == |open| + |body| + |Closing(fmt, indent)|
  {
    hide RenderMembers;
    var open, body, tail := Opening(fmt), RenderMembers(ms, fmt, indent + 1), Closing(fmt, indent);
    assert Render(Object(ms), fmt, indent) == open + body + Indent(fmt, indent) + [CLOSE_BRACE];
    assert open + body + Indent(fmt, indent) + [CLOSE_BRACE] == open + (body + tail);
    AtSplit(s, i, open, body + tail);
  }

  lemma EmptyObjectText(s: text, i: nat, fmt: bool, indent: nat)
    requires At(s, i, Opening(fmt))
    requires At(s, i + |Opening(fmt)|, RenderMembers([], fmt, indent + 1) + Closing(fmt, indent))
    ensures var z := i + |Opening(fmt)| + |Closing(fmt, indent)| - 1;
            SkipSpace(s, i + 1) == z && IsAt(s, z, CLOSE_BRACE) && RenderMembers([], fmt, indent + 1) == []
  {
    hide SkipSpace, At, Opening, Indent;
    var p := i + |Opening(fmt)|;
    assert [] + Closing(fmt, indent) == Closing(fmt, indent);
    AtSplit(s, p, Indent(fmt, indent), [CLOSE_BRACE]);
    OpeningIsSpace(fmt);
    IndentIsSpace(fmt, indent);
    AtFirstAndRest(s, i, Opening(fmt));
    SkipsBoth(s, i + 1, Opening(fmt)[1..], Indent(fmt, indent));
  }

  /** Behind the opening brace of a non-empty object the first key comes next. */
  lemma ObjectStart(s: text, i: nat, ms: seq<Member>, fmt: bool, indent: nat)
    requires ms != []
    requires At(s, i, Opening(fmt))
    requires At(s, i + |Opening(fmt)|, RenderMembers(ms, fmt, indent + 1) + Closing(fmt, indent))
    ensures var q := i + |Opening(fmt)| + |Indent(fmt, indent + 1)|;
            SkipSpace(s, i + 1) == q && IsAt(s, q, QUOTE)
  {
    hide SkipSpace, Opening, Closing, RenderMembers, At, Quote, Indent, AfterKey;
    var p := i + |Opening(fmt)|;
    FirstKeyAt(s, p, ms, fmt, indent);
    OpeningIsSpace(fmt);
    AtFirstAndRest(s, i, Opening(fmt));
    SkipsBoth(s, i + 1, Opening(fmt)[1..], Indent(fmt, indent + 1));
  }

  lemma IndentIsSpace(fmt: bool, indent: nat)
    ensures AllSpace(Indent(fmt, indent))
  {}

  lemma QuoteFirst(str: text)
    ensures Quote(str) != [] && Quote(str)[0] == QUOTE
  {}

  lemma OpeningIsSpace(fmt: bool)
    ensures Opening(fmt) != [] && AllSpace(Opening(fmt)[1..])
  {}

  /** The text of a member list is its first member's indentation, key, and the rest. */
  lemma FirstKeyAt(s: text, p: nat, ms: seq<Member>, fmt: bool, indent: nat)
    requires ms != []
    requires At(s, p, RenderMembers(ms, fmt, indent + 1) + Closing(fmt, indent))
    ensures var gap := Indent(fmt, indent + 1);
            && At(s, p, gap) && AllSpace(gap)
            && At(s, p + |gap|, Quote(ms[0].key)) && IsAt(s, p + |gap|, QUOTE)
            && At(s, p + |gap| + |Quote(ms[0].key)|, AfterKey(ms, fmt, indent))
            && |RenderMembers(ms, fmt, indent + 1) + Closing(fmt, indent)|
                 == |gap| + |Quote(ms[0].key)| + |AfterKey(ms, fmt, indent)|
  {
    hide Render, RenderMembers, Closing, Quote, Indent, At, AfterKey;
    var gap, key := Indent(fmt, indent + 1), Quote(ms[0].key);
    IndentIsSpace(fmt, indent + 1);
    QuoteFirst(ms[0].key);
    MembersSplit(ms, fmt, indent);
    AtSplit(s, p, gap, key + AfterKey(ms, fmt, indent));
    AtSplit(s, p + |gap|, key, AfterKey(ms, fmt, indent));
    AtFirstAndRest(s, p + |gap|, key);
  }

  /** Everything behind the first key, up to and including the closing brace. */
  function AfterKey(ms: seq<Member>, fmt: bool, indent: nat): text
    requires ms != []
  {
    KeySeparator(fmt) + (Render(ms[0].value, fmt, indent + 1) + AfterValue(ms, fmt, indent))
  }

  function AfterValue(ms: seq<Member>, fmt: bool, indent: nat): text
    requires ms != []
  {
    MemberEnd(fmt, |ms| == 1) + (RenderMembers(ms[1..], fmt, indent + 1) + Closing(fmt, indent))
  }

  lemma MembersSplit(ms: seq<Member>, fmt: bool, indent: nat)
    requires ms != []
    ensures RenderMembers(ms, fmt, indent + 1) + Closing(fmt, indent)
              == Indent(fmt, indent + 1) + (Quote(ms[0].key) + AfterKey(ms, fmt, indent))
  {
    hide Render, Closing, KeySeparator, MemberEnd, Quote, Indent;
    var m := ms[0];
    var gap, key, sep := Indent(fmt, indent + 1), Quote(m.key), KeySeparator(fmt);
    var value, end := Render(m.value, fmt, indent + 1), MemberEnd(fmt, |ms| == 1);
    var rest, tail := RenderMembers(ms[1..], fmt, indent + 1), Closing(fmt, indent);
    Reassociate(gap, key, sep, value, end, rest, tail);
  }

  lemma Reassociate(a: text, b: text, c: text, d: text, e: text, f: text, g: text)
    ensures a + b + c + d + e + f + g == a + (b + (c + (d + (e + (f + g)))))
  {}

  lemma {:induction false} MembersRoundTrip(s: text, p: nat, ms: seq<Member>, fmt: bool, indent: nat, depth: nat)
    requires ms != []
    requires forall k :: 0 <= k < |ms| ==>
               NulFree(ms[k].key) && Plain(ms[k].value) && NestsWithin(ms[k].value, NESTING_LIMIT - depth)
    requires At(s, p, RenderMembers(ms, fmt, indent + 1) + Closing(fmt, indent))
    ensures p + |Indent(fmt, indent + 1)| < |s|
    ensures MembersAt(s, p + |Indent(fmt, indent + 1)|, depth)
              == Members(ms, p + |RenderMembers(ms, fmt, indent + 1) + Closing(fmt, indent)|)
    decreases ms, 0
  {
    hide ValueAt, SkipSpace, StringAt, MembersAt, Render, RenderMembers, At, Plain, NestsWithin,
         Closing, Indent, Quote, KeySeparator, MemberEnd, AfterKey, AfterValue;
    var m := ms[0];
    var gap, key := Indent(fmt, indent + 1), Quote(m.key);
    var q := p + |gap|;
    var c := q + |key|;
    var v := c + |KeySeparator(fmt)|;
    var a := v + |Render(m.value, fmt, indent + 1)|;
    FirstKeyAt(s, p, ms, fmt, indent);
    QuoteRoundTrip(s, q, m.key);
    ColonText(s, c, ms, fmt, indent);
    SkipsNothing(s, c);
    ValueRoundTrip(s, v, m.value, fmt, indent + 1, depth);
    if |ms| == 1 {
      LastMemberText(s, a, ms, fmt, indent);
      MembersStep(s, q, depth, m, SkipSpace(s, a));
      assert ms == [m] + [];
    } else {
      NextMemberText(s, a, ms, fmt, indent);
      MembersStep(s, q, depth, m, a);
      MembersRoundTrip(s, a + |MemberEnd(fmt, false)|, ms[1..], fmt, indent, depth);
      assert ms == [m] + ms[1..];
    }
  }

  lemma ColonText(s: text, c: nat, ms: seq<Member>, fmt: bool, indent: nat)
    requires ms != [] && Plain(ms[0].value)
    requires At(s, c, AfterKey(ms, fmt, indent))
    ensures var v := c + |KeySeparator(fmt)|;
            var a := v + |Render(ms[0].value, fmt, indent + 1)|;
            && IsAt(s, c, COLON) && SkipSpace(s, c + 1) == v
            && At(s, v, Render(ms[0].value, fmt, indent + 1)) && EndsAt(s, a)
            && At(s, a, AfterValue(ms, fmt, indent))
            && |AfterKey(ms, fmt, indent)| == a - c + |AfterValue(ms, fmt, indent)|
  {
    hide Render, SkipSpace, AfterValue, At;
    var sep, value := KeySeparator(fmt), Render(ms[0].value, fmt, indent + 1);
    var after := AfterValue(ms, fmt, indent);
    AtSplit(s, c, sep, value + after);
    AtFirstAndRest(s, c, sep);
    var v := c + |sep|;
    AtSplit(s, v, value, after);
    FirstChar(ms[0].value, fmt, indent + 1);
    AtFirstAndRest(s, v, value);
    SkipsTo(s, c + 1, sep[1..]);
    AfterValueStarts(ms, fmt, indent);
    AtFirstAndRest(s, v + |value|, after);
  }

  lemma AfterValueStarts(ms: seq<Member>, fmt: bool, indent: nat)
    requires ms != []
    ensures AfterValue(ms, fmt, indent) != [] && !IsNumberChar(AfterValue(ms, fmt, indent)[0])
  {
    if |ms| == 1 {
      assert RenderMembers(ms[1..], fmt, indent + 1) == [];
    }
  }

  lemma LastMemberText(s: text, a: nat, ms: seq<Member>, fmt: bool, indent: nat)
    requires |ms| == 1
    requires At(s, a, AfterValue(ms, fmt, indent))
    ensures var z := a + |AfterValue(ms, fmt, indent)| - 1;
            SkipSpace(s, a) == z && IsAt(s, z, CLOSE_BRACE)
  {
    hide SkipSpace;
    var end, gap := MemberEnd(fmt, true), Indent(fmt, indent);
    assert RenderMembers(ms[1..], fmt, indent + 1) == [];
    assert AfterValue(ms, fmt, indent) == end + (gap + [CLOSE_BRACE]);
    AtSplit(s, a, end, gap + [CLOSE_BRACE]);
    AtSplit(s, a + |end|, gap, [CLOSE_BRACE]);
    SkipsBoth(s, a, end, gap);
  }

  lemma NextMemberText(s: text, a: nat, ms: seq<Member>, fmt: bool, indent: nat)
    requires |ms| > 1
    requires At(s, a, AfterValue(ms, fmt, indent))
    ensures var n := a + |MemberEnd(fmt, false)|;
            var q := n + |Indent(fmt, indent + 1)|;
            && IsAt(s, a, COMMA) && SkipSpace(s, a) == a && SkipSpace(s, a + 1) == q < |s|
            && At(s, n, RenderMembers(ms[1..], fmt, indent + 1) + Closing(fmt, indent))
            && |AfterValue(ms, fmt, indent)|
                 == |MemberEnd(fmt, false)| + |RenderMembers(ms[1..], fmt, indent + 1) + Closing(fmt, indent)|
  {
    hide SkipSpace, RenderMembers, Closing, Indent, Quote, At;
    var end, rest := MemberEnd(fmt, false), RenderMembers(ms[1..], fmt, indent + 1) + Closing(fmt, indent);
    AtSplit(s, a, end, rest);
    AtFirstAndRest(s, a, end);
    SkipsNothing(s, a);
    FirstKeyAt(s, a + |end|, ms[1..], fmt, indent);
    SkipsBoth(s, a + 1, end[1..], Indent(fmt, indent + 1));
  }

  // ---------------------------------------------------------------------
  // Whole texts
  // ---------------------------------------------------------------------

  lemma StartsAtFirst(t: Json, fmt: bool, s: text)
    requires Plain(t)
    requires At(s, 0, Render(t, fmt, 0))
    ensures s != [] && TextStart(s) == 0 && SkipSpace(s, 0) == 0
  {
    hide Render, SkipSpace;
    FirstChar(t, fmt, 0);
    AtFirstAndRest(s, 0, Render(t, fmt, 0));
    SkipsNothing(s, 0);
    assert |s| > 4 ==> s[..3][0] == s[0];
  }

  /**
   The printed text, formatted or not, with or without a terminator behind it
   and with or without the demand for one, parses to the tree it was printed
   from, and all of it is consumed.
   */
  lemma TreeRoundTrip(t: Json, fmt: bool)
    requires Plain(t) && NestsWithin(t, NESTING_LIMIT)
    ensures var r := Render(t, fmt, 0);
            && TextAt(r, false) == Parsed(t, |r|)
            && TextAt(r + [NUL], false) == Parsed(t, |r|)
            && TextAt(r + [NUL], true) == Parsed(t, |r|)
            && Parse(r) == Some(t)
  {
    hide Render, ValueAt, SkipSpace;
    var r := Render(t, fmt, 0);
    var c := r + [NUL];
    assert At(r, 0, r) && At(c, 0, r);
    StartsAtFirst(t, fmt, r);
    StartsAtFirst(t, fmt, c);
    ValueRoundTrip(r, 0, t, fmt, 0, 0);
    ValueRoundTrip(c, 0, t, fmt, 0, 0);
    TrailingNul(r);
  }

  lemma TrailingNul(r: text)
    ensures SkipSpace(r + [NUL], |r|) == |r|
  {
    assert NonSpace(r + [NUL], |r|) == NonSpace(r + [NUL], |r| + 1);
  }

  // ---------------------------------------------------------------------
  // What was parsed can be printed
  // ---------------------------------------------------------------------

  /** Whatever the text, a value that was read holds no terminators and nests within the limit. */
  lemma {:induction false} ValueIsClean(s: text, i: nat, depth: nat)
    requires i <= |s| && ValueAt(s, i, depth).Parsed?
    ensures var v := ValueAt(s, i, depth).value; Clean(v) && NestsWithin(v, NESTING_LIMIT - depth)
    decreases |s| - i, 1
  {
    hide StringAt, NumberAt, SkipSpace;
    if IsAt(s, i, OPEN_BRACKET) {
      ArrayIsClean(s, i, depth);
    } else if IsAt(s, i, OPEN_BRACE) {
      ObjectIsClean(s, i, depth);
    } else if IsAt(s, i, QUOTE) {
      StringIsClean(s, i);
    }
  }

  lemma StringIsClean(s: text, i: nat)
    requires i < |s| && StringAt(s, i).Quoted?
    ensures NulFree(StringAt(s, i).value)
  {
    hide Utf16.DecodeEscape, Unescape, ScanEnd;
  }

  lemma {:induction false} ArrayIsClean(s: text, i: nat, depth: nat)
    requires IsAt(s, i, OPEN_BRACKET) && ArrayAt(s, i, depth).Parsed?
    ensures var v := ArrayAt(s, i, depth).value; Clean(v) && NestsWithin(v, NESTING_LIMIT - depth)
    decreases |s| - i, 0
  {
    hide ItemsAt, SkipSpace, Clean, NestsWithin;
    NothingInside(NESTING_LIMIT - depth);
    var j := SkipSpace(s, i + 1);
    if !IsAt(s, j, CLOSE_BRACKET) {
      ItemsAreClean(s, j, depth + 1);
      CleanArray(ItemsAt(s, j, depth + 1).items, NESTING_LIMIT - depth);
    }
  }

  lemma {:induction false} ObjectIsClean(s: text, i: nat, depth: nat)
    requires IsAt(s, i, OPEN_BRACE) && ObjectAt(s, i, depth).Parsed?
    ensures var v := ObjectAt(s, i, depth).value; Clean(v) && NestsWithin(v, NESTING_LIMIT - depth)
    decreases |s| - i, 0
  {
    hide MembersAt, SkipSpace, Clean, NestsWithin;
    NothingInside(NESTING_LIMIT - depth);
    var j := SkipSpace(s, i + 1);
    if !IsAt(s, j, CLOSE_BRACE) {
      MembersAreClean(s, j, depth + 1);
      CleanObject(MembersAt(s, j, depth + 1).members, NESTING_LIMIT - depth);
    }
  }

  lemma NothingInside(limit: int)
    ensures Clean(Array([])) && Clean(Object([]))
    ensures limit > 0 ==> NestsWithin(Array([]), limit) && NestsWithin(Object([]), limit)
  {}

  ghost predicate CleanItems(items: seq<Json>, limit: int) {
    forall i :: 0 <= i < |items| ==> Clean(items[i]) && NestsWithin(items[i], limit)
  }

  ghost predicate CleanMembers(ms: seq<Member>, limit: int) {
    forall i :: 0 <= i < |ms| ==> NulFree(ms[i].key) && Clean(ms[i].value) && NestsWithin(ms[i].value, limit)
  }

  lemma CleanArray(items: seq<Json>, limit: int)
    requires CleanItems(items, limit - 1) && limit > 0
    ensures Clean(Array(items)) && NestsWithin(Array(items), limit)
  {}

  lemma CleanObject(ms: seq<Member>, limit: int)
    requires CleanMembers(ms, limit - 1) && limit > 0
    ensures Clean(Object(ms)) && NestsWithin(Object(ms), limit)
  {}

  lemma {:induction false} ItemsAreClean(s: text, i: nat, depth: nat)
    requires i <= |s| && ItemsAt(s, i, depth).Items?
    ensures CleanItems(ItemsAt(s, i, depth).items, NESTING_LIMIT - depth)
    decreases |s| - i, 2
  {
    hide ValueAt, SkipSpace, Clean, NestsWithin;
    ValueIsClean(s, i, depth);
    var k := SkipSpace(s, ValueAt(s, i, depth).after);
    if IsAt(s, k, COMMA) {
      ItemsAreClean(s, SkipSpace(s, k + 1), depth);
    }
  }

  lemma {:induction false} MembersAreClean(s: text, i: nat, depth: nat)
    requires i < |s| && MembersAt(s, i, depth).Members?
    ensures CleanMembers(MembersAt(s, i, depth).members, NESTING_LIMIT - depth)
    decreases |s| - i, 2
  {
    hide ValueAt, SkipSpace, StringAt, Clean, NestsWithin;
    StringIsClean(s, i);
    var c := SkipSpace(s, StringAt(s, i).after);
    ValueIsClean(s, SkipSpace(s, c + 1), depth);
    var k := SkipSpace(s, ValueAt(s, SkipSpace(s, c + 1), depth).after);
    if IsAt(s, k, COMMA) {
      MembersAreClean(s, SkipSpace(s, k + 1), depth);
    }
  }

  /** Every parsed tree is made of C strings and nests within the limit, whatever the text was. */
  lemma ParsedIsClean(str: text)
    requires Parse(str).Some?
    ensures Clean(Parse(str).value) && NestsWithin(Parse(str).value, NESTING_LIMIT)
  {
    hide ValueAt, SkipSpace, Clean, NestsWithin;
    var s := str + [NUL];
    ValueIsClean(s, SkipSpace(s, TextStart(s)), 0);
  }

  /**
   Printing what was parsed, with integers only, and parsing again gives the
   same tree, whatever text it was first read from.
   */
  lemma ParsedPrintsBack(str: text, fmt: bool)
    requires Parse(str).Some? && Integers(Parse(str).value)
    ensures Parse(Render(Parse(str).value, fmt, 0)) == Parse(str)
  {
    hide Render, Parse, TextAt, Clean, Integers, NestsWithin, Plain;
    ParsedIsClean(str);
    PlainParts(Parse(str).value);
    TreeRoundTrip(Parse(str).value, fmt);
  }
}
