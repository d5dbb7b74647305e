/**
 The other direction: whatever the parser accepts is built like JSON. Apart
 from blanks, an accepted text consists of words, quoted texts, runs of number
 characters, and brackets around lists of those with single commas between and
 names and colons in front; and the value it yields has the same structure.
 The texts accepted beyond RFC 8259 (section 9 allows them) differ from it only
 inside those leaves and in the characters taken for blanks.
 */
module JsonAccepted {
  import opened CText
  import opened JsonString
  import opened JsonNumber
  import opened JsonValue
  import opened JsonParse

  // ---------------------------------------------------------------------
  // What an accepted text is made of
  // ---------------------------------------------------------------------

  datatype Outline =
    | Leaf(text: text, value: Json)
    | Brackets(gap: text, parts: seq<Part>)
    | Braces(gap: text, entries: seq<Entry>)

  /** A value with the blanks around it. */
  datatype Part = Part(before: text, value: Outline, after: text)

  /** A quoted name, what it yields, the blanks around it, and what stands behind the colon. */
  datatype Entry = Entry(before: text, quoted: text, key: text, after: text, part: Part)

  predicate Blank(t: text) {
    forall i :: 0 <= i < |t| ==> t[i] <= 32
  }

  /** Enclosed in quotes; a quote inside has a backslash in front. */
  predicate InQuotes(t: text) {
    && |t| >= 2 && t[0] == Lit("\"")[0] && t[|t| - 1] == Lit("\"")[0]
    && forall i :: 0 < i < |t| - 1 && t[i] == Lit("\"")[0] ==> t[i - 1] == Lit("\\")[0]
  }

  predicate Numeric(t: text) {
    && t != [] && (t[0] == Lit("-")[0] || t[0] in Lit("0123456789"))
    && forall i :: 0 <= i < |t| ==> t[i] in Lit("0123456789+-.eE")
  }

  predicate LeafOk(t: text, v: Json) {
    match v
    case Null => t == Lit("null")
    case True => t == Lit("true")
    case False => t == Lit("false")
    case String(_) => InQuotes(t)
    case Number(_) => Numeric(t)
    case _ => false
  }

  predicate OutlineOk(o: Outline) {
    match o
    case Leaf(t, v) => LeafOk(t, v)
    case Brackets(gap, parts) => Blank(gap) && forall i :: 0 <= i < |parts| ==> PartOk(parts[i])
    case Braces(gap, entries) => Blank(gap) && forall i :: 0 <= i < |entries| ==> EntryOk(entries[i])
  }

  predicate PartOk(p: Part) {
    Blank(p.before) && OutlineOk(p.value) && Blank(p.after)
  }

  predicate EntryOk(e: Entry) {
    Blank(e.before) && InQuotes(e.quoted) && Blank(e.after) && PartOk(e.part)
  }

  function Written(o: Outline): text
    decreases o
  {
    match o
    case Leaf(t, _) => t
    case Brackets(gap, parts) => Lit("[") + (if parts == [] then gap else PartsWritten(parts)) + Lit("]")
    case Braces(gap, entries) => Lit("{") + (if entries == [] then gap else EntriesWritten(entries)) + Lit("}")
  }

  function PartWritten(p: Part): text
    decreases p
  {
    p.before + Written(p.value) + p.after
  }

  function PartsWritten(parts: seq<Part>): text
    decreases parts
  {
    if parts == [] then []
    else PartWritten(parts[0]) + if |parts| == 1 then [] else Lit(",") + PartsWritten(parts[1..])
  }

  function EntryWritten(e: Entry): text
    decreases e
  {
    e.before + e.quoted + e.after + Lit(":") + PartWritten(e.part)
  }

  function EntriesWritten(entries: seq<Entry>): text
    decreases entries
  {
    if entries == [] then []
    else EntryWritten(entries[0]) + if |entries| == 1 then [] else Lit(",") + EntriesWritten(entries[1..])
  }

  /** The value the parts make up. */
  function Whole(o: Outline): Json
    decreases o
  {
    match o
    case Leaf(_, v) => v
    case Brackets(_, parts) => Array(Values(parts))
    case Braces(_, entries) => Object(Named(entries))
  }

  function Values(parts: seq<Part>): seq<Json>
    decreases parts
  {
    if parts == [] then [] else [Whole(parts[0].value)] + Values(parts[1..])
  }

  function Named(entries: seq<Entry>): seq<Member>
    decreases entries
  {
    if entries == [] then []
    else [Member(entries[0].key, Whole(entries[0].part.value))] + Named(entries[1..])
  }

  // ---------------------------------------------------------------------
  // Blanks and leaves
  // ---------------------------------------------------------------------

  lemma {:induction false} NonSpaceIsBlank(s: text, i: nat)
    requires i <= |s|
    ensures Blank(s[i..NonSpace(s, i)])
    decreases |s| - i
  {
    if i < |s| && s[i] <= 32 {
      NonSpaceIsBlank(s, i + 1);
      var e := NonSpace(s, i);
      assert s[i..e] == [s[i]] + s[i + 1..e];
    }
  }

  lemma SkippedIsBlank(s: text, i: nat)
    requires i <= |s|
    ensures Blank(s[i..SkipSpace(s, i)])
  {
    NonSpaceIsBlank(s, i);
    var e, n := SkipSpace(s, i), NonSpace(s, i);
    forall k | 0 <= k < e - i ensures s[i..e][k] <= 32 {
      assert s[i..e][k] == s[i + k] == s[i..n][k];
    }
  }

  lemma {:induction false} ScanStopsAtQuote(s: text, i: nat, e: nat)
    requires i <= |s| && ScanEnd(s, i) == Some(e)
    ensures i <= e < |s| && s[e] == QUOTE
    ensures forall k :: i <= k < e && s[k] == QUOTE ==> k > i && s[k - 1] == BACKSLASH
    decreases |s| - i
  {
    if s[i] != QUOTE {
      if s[i] == BACKSLASH { ScanStopsAtQuote(s, i + 2, e); } else { ScanStopsAtQuote(s, i + 1, e); }
    }
  }

  lemma QuotedIsInQuotes(s: text, i: nat)
    requires i < |s| && StringAt(s, i).Quoted?
    ensures InQuotes(s[i..StringAt(s, i).after])
  {
    hide ScanEnd, Unescape;
    var e := ScanEnd(s, i + 1).value;
    ScanStopsAtQuote(s, i + 1, e);
    var t := s[i..e + 1];
    assert Lit("\"")[0] == QUOTE && Lit("\\")[0] == BACKSLASH;
    forall k | 0 < k < |t| - 1 && t[k] == QUOTE ensures t[k - 1] == BACKSLASH {
      assert t[k] == s[i + k] && t[k - 1] == s[i + k - 1];
    }
  }

  lemma NumberCharIs(c: uchar)
    requires IsNumberChar(c)
    ensures c in Lit("0123456789+-.eE") && (IsDigit(c) ==> c in Lit("0123456789"))
  {
    var t, d := Lit("0123456789+-.eE"), Lit("0123456789");
    if IsDigit(c) {
      assert t[(c - 0x30) as int] == c && d[(c - 0x30) as int] == c;
    } else {
      assert t[10] == 0x2B && t[11] == 0x2D && t[12] == 0x2E && t[13] == 0x65 && t[14] == 0x45;
    }
  }

  lemma NumberIsNumeric(s: text, i: nat)
    requires i < |s| && (s[i] == MINUS || IsDigit(s[i])) && NumberAt(s, i).ANumber?
    ensures Numeric(s[i..i + NumberAt(s, i).consumed])
  {
    hide Strtod, IsNumberChar;
    var n := NumberAt(s, i).consumed;
    var t := s[i..i + n];
    assert IsNumberChar(s[i]) by { SignOrDigit(s[i]); }
    forall k | 0 <= k < |t| ensures t[k] in Lit("0123456789+-.eE") {
      assert i <= i + k < NumberEnd(s, i) && t[k] == s[i + k];
      NumberCharIs(t[k]);
    }
    NumberCharIs(s[i]);
  }

  lemma SignOrDigit(c: uchar)
    requires c == MINUS || IsDigit(c)
    ensures IsNumberChar(c)
  {}

  // ---------------------------------------------------------------------
  // Values
  // ---------------------------------------------------------------------

  lemma AtSlice(s: text, i: nat, e: nat)
    requires i <= e <= |s|
    ensures At(s, i, s[i..e]) && |s[i..e]| == e - i
  {}

  lemma SingleAt(s: text, i: nat, c: uchar, t: text)
    requires IsAt(s, i, c) && t == [c]
    ensures At(s, i, t)
  {}

  /** A leaf at a position. */
  lemma LeafAt(s: text, i: nat, depth: nat) returns (o: Outline)
    requires i <= |s| && ValueAt(s, i, depth).Parsed?
    requires !IsAt(s, i, OPEN_BRACKET) && !IsAt(s, i, OPEN_BRACE)
    ensures OutlineOk(o) && At(s, i, Written(o)) && Whole(o) == ValueAt(s, i, depth).value
    ensures i + |Written(o)| == ValueAt(s, i, depth).after
  {
    hide StringAt, NumberAt, InQuotes, Numeric;
    var r := ValueAt(s, i, depth);
    AtSlice(s, i, r.after);
    o := Leaf(s[i..r.after], r.value);
    WordsAre();
    if r.value.String? {
      QuotedIsInQuotes(s, i);
    } else if r.value.Number? {
      NumberIsNumeric(s, i);
    }
  }

  lemma WordsAre()
    ensures NULL_TEXT == Lit("null") && TRUE_TEXT == Lit("true") && FALSE_TEXT == Lit("false")
    ensures |NULL_TEXT| == 4 && |TRUE_TEXT| == 4 && |FALSE_TEXT| == 5
  {}

  /** Whatever is accepted at a position is the text of an outline with the same value. */
  lemma {:induction false} ValueIsOutline(s: text, i: nat, depth: nat) returns (o: Outline)
    requires i <= |s| && ValueAt(s, i, depth).Parsed?
    ensures OutlineOk(o) && At(s, i, Written(o)) && Whole(o) == ValueAt(s, i, depth).value
    ensures i + |Written(o)| == ValueAt(s, i, depth).after
    decreases |s| - i, 1
  {
    hide ItemsAt, MembersAt, SkipSpace;
    if IsAt(s, i, OPEN_BRACKET) {
      o := ArrayIsOutline(s, i, depth);
    } else if IsAt(s, i, OPEN_BRACE) {
      o := ObjectIsOutline(s, i, depth);
    } else {
      o := LeafAt(s, i, depth);
    }
  }

  lemma {:induction false} ArrayIsOutline(s: text, i: nat, depth: nat) returns (o: Outline)
    requires IsAt(s, i, OPEN_BRACKET) && ArrayAt(s, i, depth).Parsed?
    ensures OutlineOk(o) && At(s, i, Written(o)) && Whole(o) == ArrayAt(s, i, depth).value
    ensures i + |Written(o)| == ArrayAt(s, i, depth).after
    decreases |s| - i, 0
  {
    hide ItemsAt, SkipSpace, At, PartsWritten, Blank;
    var j := SkipSpace(s, i + 1);
    SingleAt(s, i, OPEN_BRACKET, Lit("["));
    if IsAt(s, j, CLOSE_BRACKET) {
      o := Brackets(s[i + 1..j], []);
      SkippedIsBlank(s, i + 1);
      AtSlice(s, i + 1, j);
      SingleAt(s, j, CLOSE_BRACKET, Lit("]"));
      AtJoin(s, i, Lit("["), o.gap);
      AtJoin(s, i, Lit("[") + o.gap, Lit("]"));
    } else {
      var parts := ItemsAreParts(s, i + 1, depth + 1);
      o := Brackets([], parts);
      NothingIsBlank();
      AtSplit(s, i + 1, PartsWritten(parts), Lit("]"));
      AtJoin(s, i, Lit("["), PartsWritten(parts));
      AtJoin(s, i, Lit("[") + PartsWritten(parts), Lit("]"));
    }
  }

  lemma NothingIsBlank()
    ensures Blank([])
  {}

  lemma OnePart(p: Part)
    ensures PartsWritten([p]) == PartWritten(p) && Values([p]) == [Whole(p.value)]
  {
    hide PartWritten, Whole;
    assert [p][1..] == [];
  }

  /** One part, then others behind a comma and in front of the bracket. */
  lemma MoreParts(p: Part, rest: seq<Part>)
    requires rest != []
    ensures PartsWritten([p] + rest) + Lit("]") == PartWritten(p) + (Lit(",") + (PartsWritten(rest) + Lit("]")))
    ensures |PartsWritten([p] + rest)| == |PartWritten(p)| + 1 + |PartsWritten(rest)|
    ensures Values([p] + rest) == [Whole(p.value)] + Values(rest)
  {
    hide PartWritten, Whole;
    assert ([p] + rest)[1..] == rest;
    assert PartsWritten([p] + rest) == PartWritten(p) + (Lit(",") + PartsWritten(rest));
    Behind(PartWritten(p), Lit(","), PartsWritten(rest), Lit("]"));
  }

  lemma Behind(a: text, b: text, c: text, d: text)
    ensures a + (b + c) + d == a + (b + (c + d))
  {}

  lemma {:induction false} ItemsAreParts(s: text, g: nat, depth: nat) returns (parts: seq<Part>)
    requires g <= |s| && ItemsAt(s, SkipSpace(s, g), depth).Items?
    ensures parts != [] && forall k :: 0 <= k < |parts| ==> PartOk(parts[k])
    ensures At(s, g, PartsWritten(parts) + Lit("]"))
    ensures g + |PartsWritten(parts)| + 1 == ItemsAt(s, SkipSpace(s, g), depth).after
    ensures Values(parts) == ItemsAt(s, SkipSpace(s, g), depth).items
    decreases |s| - g, 2
  {
    hide ValueAt, SkipSpace, At, Blank, OutlineOk, Whole, Written, PartsWritten, PartWritten, Values;
    var i := SkipSpace(s, g);
    var o := ValueIsOutline(s, i, depth);
    var after := ValueAt(s, i, depth).after;
    var k := SkipSpace(s, after);
    var p := PartAt(s, g, o);
    if IsAt(s, k, COMMA) {
      var rest := ItemsAreParts(s, k + 1, depth);
      parts := [p] + rest;
      MoreParts(p, rest);
      SingleAt(s, k, COMMA, Lit(","));
      AtJoin(s, k, Lit(","), PartsWritten(rest) + Lit("]"));
      AtJoin(s, g, PartWritten(p), Lit(",") + (PartsWritten(rest) + Lit("]")));
    } else {
      parts := [p];
      OnePart(p);
      SingleAt(s, k, CLOSE_BRACKET, Lit("]"));
      AtJoin(s, g, PartWritten(p), Lit("]"));
    }
  }

  /** A value with the blanks around it. */
  lemma PartAt(s: text, g: nat, o: Outline) returns (p: Part)
    requires g <= |s| && OutlineOk(o) && At(s, SkipSpace(s, g), Written(o))
    ensures var e := SkipSpace(s, g) + |Written(o)|;
            e <= |s| && PartOk(p) && p.value == o
            && At(s, g, PartWritten(p)) && g + |PartWritten(p)| == SkipSpace(s, e)
  {
    hide SkipSpace, Blank, OutlineOk, Written;
    var i := SkipSpace(s, g);
    var e := i + |Written(o)|;
    var k := SkipSpace(s, e);
    p := Part(s[g..i], o, s[e..k]);
    SkippedIsBlank(s, g);
    SkippedIsBlank(s, e);
    AtSlice(s, g, i);
    AtSlice(s, e, k);
    AtJoin(s, g, p.before, Written(o));
    AtJoin(s, g, p.before + Written(o), p.after);
  }

  lemma {:induction false} ObjectIsOutline(s: text, i: nat, depth: nat) returns (o: Outline)
    requires IsAt(s, i, OPEN_BRACE) && ObjectAt(s, i, depth).Parsed?
    ensures OutlineOk(o) && At(s, i, Written(o)) && Whole(o) == ObjectAt(s, i, depth).value
    ensures i + |Written(o)| == ObjectAt(s, i, depth).after
    decreases |s| - i, 0
  {
    hide MembersAt, SkipSpace, At, EntriesWritten, Blank, InQuotes;
    var j := SkipSpace(s, i + 1);
    SingleAt(s, i, OPEN_BRACE, Lit("{"));
    if IsAt(s, j, CLOSE_BRACE) {
      o := Braces(s[i + 1..j], []);
      SkippedIsBlank(s, i + 1);
      AtSlice(s, i + 1, j);
      SingleAt(s, j, CLOSE_BRACE, Lit("}"));
      AtJoin(s, i, Lit("{"), o.gap);
      AtJoin(s, i, Lit("{") + o.gap, Lit("}"));
    } else {
      var entries := MembersAreEntries(s, i + 1, depth + 1);
      o := Braces([], entries);
      NothingIsBlank();
      AtSplit(s, i + 1, EntriesWritten(entries), Lit("}"));
      AtJoin(s, i, Lit("{"), EntriesWritten(entries));
      AtJoin(s, i, Lit("{") + EntriesWritten(entries), Lit("}"));
    }
  }

  lemma OneEntry(e: Entry)
    ensures EntriesWritten([e]) == EntryWritten(e) && Named([e]) == [Member(e.key, Whole(e.part.value))]
  {
    hide EntryWritten, Whole;
    assert [e][1..] == [];
  }

  lemma MoreEntries(e: Entry, rest: seq<Entry>)
    requires rest != []
    ensures EntriesWritten([e] + rest) + Lit("}") == EntryWritten(e) + (Lit(",") + (EntriesWritten(rest) + Lit("}")))
    ensures |EntriesWritten([e] + rest)| == |EntryWritten(e)| + 1 + |EntriesWritten(rest)|
    ensures Named([e] + rest) == [Member(e.key, Whole(e.part.value))] + Named(rest)
  {
    hide EntryWritten, Whole;
    assert ([e] + rest)[1..] == rest;
    assert EntriesWritten([e] + rest) == EntryWritten(e) + (Lit(",") + EntriesWritten(rest));
    Behind(EntryWritten(e), Lit(","), EntriesWritten(rest), Lit("}"));
  }

  lemma {:induction false} MembersAreEntries(s: text, g: nat, depth: nat) returns (entries: seq<Entry>)
    requires g <= |s| && SkipSpace(s, g) < |s| && MembersAt(s, SkipSpace(s, g), depth).Members?
    ensures entries != [] && forall k :: 0 <= k < |entries| ==> EntryOk(entries[k])
    ensures At(s, g, EntriesWritten(entries) + Lit("}"))
    ensures g + |EntriesWritten(entries)| + 1 == MembersAt(s, SkipSpace(s, g), depth).after
    ensures Named(entries) == MembersAt(s, SkipSpace(s, g), depth).members
    decreases |s| - g, 2
  {
    hide ValueAt, StringAt, SkipSpace, At, PartOk, InQuotes, Blank, Whole, EntriesWritten, EntryWritten, Named;
    var q := SkipSpace(s, g);
    var c := SkipSpace(s, StringAt(s, q).after);
    var v := SkipSpace(s, c + 1);
    var o := ValueIsOutline(s, v, depth);
    var after := ValueAt(s, v, depth).after;
    var k := SkipSpace(s, after);
    var e := EntryAt(s, g, o);
    if IsAt(s, k, COMMA) {
      var rest := MembersAreEntries(s, k + 1, depth);
      entries := [e] + rest;
      MoreEntries(e, rest);
      SingleAt(s, k, COMMA, Lit(","));
      AtJoin(s, k, Lit(","), EntriesWritten(rest) + Lit("}"));
      AtJoin(s, g, EntryWritten(e), Lit(",") + (EntriesWritten(rest) + Lit("}")));
    } else {
      entries := [e];
      OneEntry(e);
      SingleAt(s, k, CLOSE_BRACE, Lit("}"));
      AtJoin(s, g, EntryWritten(e), Lit("}"));
    }
  }

  /** A name, a colon and a value with the blanks around them. */
  lemma EntryAt(s: text, g: nat, o: Outline) returns (e: Entry)
    requires g <= |s| && SkipSpace(s, g) < |s| && StringAt(s, SkipSpace(s, g)).Quoted?
    requires var c := SkipSpace(s, StringAt(s, SkipSpace(s, g)).after);
             IsAt(s, c, COLON) && OutlineOk(o) && At(s, SkipSpace(s, c + 1), Written(o))
    ensures var r := StringAt(s, SkipSpace(s, g));
            var end := SkipSpace(s, SkipSpace(s, r.after) + 1) + |Written(o)|;
            end <= |s| && EntryOk(e) && e.key == r.value && e.part.value == o
            && At(s, g, EntryWritten(e)) && g + |EntryWritten(e)| == SkipSpace(s, end)
  {
    hide SkipSpace, StringAt, At, Blank, OutlineOk, Written, InQuotes, PartWritten, PartOk;
    var q := SkipSpace(s, g);
    var r := StringAt(s, q);
    var c := SkipSpace(s, r.after);
    var p := PartAt(s, c + 1, o);
    e := Entry(s[g..q], s[q..r.after], r.value, s[r.after..c], p);
    SkippedIsBlank(s, g);
    SkippedIsBlank(s, r.after);
    QuotedIsInQuotes(s, q);
    AtSlice(s, g, q);
    AtSlice(s, q, r.after);
    AtSlice(s, r.after, c);
    SingleAt(s, c, COLON, Lit(":"));
    AtJoin(s, g, e.before, e.quoted);
    AtJoin(s, g, e.before + e.quoted, e.after);
    AtJoin(s, g, e.before + e.quoted + e.after, Lit(":"));
    AtJoin(s, g, e.before + e.quoted + e.after + Lit(":"), PartWritten(p));
  }

  // ---------------------------------------------------------------------
  // Texts
  // ---------------------------------------------------------------------

  /**
   Whatever text is accepted starts, behind a byte order mark and blanks, with
   the text of an outline of the value; where the text is required to end there,
   only blanks follow, up to a terminator.
   */
  lemma AcceptedIsOutline(content: text, requireNul: bool) returns (mark: text, blank: text, o: Outline, rest: text)
    requires TextAt(content, requireNul).Parsed?
    ensures content == mark + blank + Written(o) + rest
    ensures (mark == [] || mark == [0xEF, 0xBB, 0xBF]) && Blank(blank) && OutlineOk(o)
    ensures Whole(o) == TextAt(content, requireNul).value
    ensures requireNul ==> exists n :: 0 <= n < |rest| && Blank(rest[..n]) && rest[n] == 0
  {
    hide ValueAt, SkipSpace, Written, OutlineOk, Whole, At;
    var b := TextStart(content);
    var i := SkipSpace(content, b);
    o := ValueIsOutline(content, i, 0);
    var after := ValueAt(content, i, 0).after;
    mark, blank, rest := content[..b], content[b..i], content[after..];
    SkippedIsBlank(content, b);
    SkippedIsBlank(content, after);
    assert content[i..after] == Written(o) by { AtIsSlice(content, i, Written(o)); }
    assert content == content[..b] + content[b..i] + content[i..after] + content[after..];
    if requireNul {
      var e := SkipSpace(content, after);
      assert rest[..e - after] == content[after..e] && rest[e - after] == content[e];
    }
  }

  lemma AtIsSlice(s: text, i: nat, t: text)
    requires At(s, i, t)
    ensures i + |t| <= |s| && s[i..i + |t|] == t
  {}
}
