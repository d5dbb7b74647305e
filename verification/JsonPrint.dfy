/**
 The buffer-writing printer (components/dsp_json/cjson/cJSON.c, ensure,
 update_offset, print_value, print_array, print_object, print_string_ptr and
 print). Every method is proved against the pure renderer.

 A printing method leaves its text, terminated, behind the cursor but may leave
 the cursor anywhere inside that text; the caller moves it to the end with
 `UpdateOffset`. No write goes beyond the space that `Ensure` granted, because
 nothing else is known about the size of the buffer.
 */
module JsonPrint {
  import opened CText
  import opened JsonString
  import Utf16
  import opened JsonNumber
  import opened JsonValue
  import opened JsonList
  import opened JsonTree
  import opened JsonNodes

  class PrintBuffer {
    var buffer: array<uchar>
    var offset: nat
    var depth: nat
    const noalloc: bool
    const format: bool
    const hasReallocate: bool

    constructor (length: nat, noalloc: bool, format: bool, hasReallocate: bool)
      requires 0 < length <= INT_MAX
      ensures Valid() && offset == 0 && depth == 0 && fresh(buffer)
      ensures this.noalloc == noalloc && this.format == format
    {
      buffer := new uchar[length];
      offset := 0;
      depth := 0;
      this.noalloc := noalloc;
      this.format := format;
      this.hasReallocate := hasReallocate;
    }

    constructor Preallocated(buffer: array<uchar>, format: bool)
      requires 0 < buffer.Length <= INT_MAX
      ensures Valid() && offset == 0 && depth == 0 && this.buffer == buffer
      ensures noalloc && this.format == format
    {
      this.buffer := buffer;
      offset := 0;
      depth := 0;
      noalloc := true;
      this.format := format;
      hasReallocate := false;
    }

    ghost predicate Valid()
      reads this`buffer, this`offset
    {
      offset < buffer.Length <= INT_MAX
    }

    /** How long the buffer can become. */
    ghost function Limit(): nat
      reads this`buffer
    {
      if noalloc then buffer.Length else INT_MAX
    }

    /** The text in front of the cursor. */
    ghost function Text(): text
      reads this`buffer, this`offset, buffer
      requires Valid()
    {
      buffer[..offset]
    }

    /** `t` stands, terminated, behind the text `prefix`, and the cursor is somewhere in `t`. */
    ghost predicate Holds(prefix: text, t: text)
      reads this`buffer, this`offset, buffer
    {
      && Valid()
      && |prefix| + |t| < buffer.Length
      && buffer[..|prefix| + |t|] == prefix + t
      && buffer[|prefix| + |t|] == NUL
      && |prefix| <= offset <= |prefix| + |t|
    }

    /**
     Makes room for `needed` more characters and a terminator. It fails exactly
     when the buffer cannot become that long, and never disturbs the text that
     is already there.
     */
    method Ensure(needed: nat) returns (ok: bool)
      requires Valid()
      modifies this`buffer
      ensures Valid() && Limit() == old(Limit())
      ensures buffer == old(buffer) || (fresh(buffer) && !noalloc)
      ensures Text() == old(Text())
      ensures ok <==> offset + needed + 1 <= Limit()
      ensures ok ==> offset + needed + 1 <= buffer.Length
    {
      if buffer.Length > 0 && offset >= buffer.Length {
        return false;
      }
      if needed > INT_MAX {
        return false;
      }
      var total := needed + offset + 1;
      if total <= buffer.Length {
        return true;
      }
      if noalloc {
        return false;
      }
      var newSize: nat;
      if total > INT_MAX / 2 {
        if total <= INT_MAX {
          newSize := INT_MAX;
        } else {
          return false;
        }
      } else {
        newSize := total * 2;
      }
      var newBuffer := new uchar[newSize];
      var kept := if hasReallocate then buffer.Length else offset + 1;
      forall i | 0 <= i < kept {
        newBuffer[i] := buffer[i];
      }
      buffer := newBuffer;
      return true;
    }

    /** Moves the cursor to the terminator. */
    method UpdateOffset(ghost prefix: text, ghost t: text)
      requires Holds(prefix, t) && NulFree(t)
      modifies this`offset
      ensures Valid() && Text() == prefix + t
    {
      var end := offset;
      assert forall k :: |prefix| <= k < |prefix| + |t| ==> buffer[k] == (prefix + t)[k] != NUL;
      while buffer[end] != NUL
        invariant offset <= end <= |prefix| + |t|
        decreases |prefix| + |t| - end
      {
        end := end + 1;
      }
      offset := end;
    }

    /** Copies `t` to position `at`. */
    method Write(at: nat, t: text)
      requires at + |t| <= buffer.Length
      modifies buffer
      ensures buffer[..at + |t|] == old(buffer[..at]) + t
    {
      forall i | 0 <= i < |t| {
        buffer[at + i] := t[i];
      }
    }

    /** Copies `t` and a terminator to position `at`, the way `strcpy` does. */
    method WriteString(at: nat, t: text)
      requires at + |t| < buffer.Length
      modifies buffer
      ensures buffer[..at + |t|] == old(buffer[..at]) + t
      ensures buffer[at + |t|] == NUL
    {
      Write(at, t);
      ghost var written := buffer[..at + |t|];
      buffer[at + |t|] := NUL;
      assert buffer[..at + |t|] == written;
    }

    /** Reserves room for `needed` characters, writes `t` and moves the cursor behind it. */
    method Append(needed: nat, t: text) returns (ok: bool)
      requires Valid() && |t| <= needed
      modifies this`buffer, this`offset, buffer
      ensures buffer == old(buffer) || (fresh(buffer) && !noalloc)
      ensures ok <==> old(offset) + needed + 1 <= old(Limit())
      ensures ok ==> Valid() && Text() == old(Text()) + t && Limit() == old(Limit())
    {
      ok := Ensure(needed);
      if ok {
        Write(offset, t);
        offset := offset + |t|;
      }
    }

    /** Reserves room for `t` and its terminator, writes both and moves the cursor onto the terminator. */
    method AppendString(t: text) returns (ok: bool)
      requires Valid()
      modifies this`buffer, this`offset, buffer
      ensures buffer == old(buffer) || (fresh(buffer) && !noalloc)
      ensures ok <==> old(offset) + |t| + 2 <= old(Limit())
      ensures ok ==> Valid() && Text() == old(Text()) + t && Limit() == old(Limit())
    {
      ok := Ensure(|t| + 1);
      if ok {
        WriteString(offset, t);
        offset := offset + |t|;
      }
    }

    /** Reserves room for `t` and its terminator and writes both; the cursor stays in front of them. */
    method PrintWord(t: text) returns (ok: bool)
      requires Valid()
      modifies this`buffer, buffer
      ensures buffer == old(buffer) || (fresh(buffer) && !noalloc)
      ensures ok <==> old(offset) + |t| + 2 <= old(Limit())
      ensures ok ==> Holds(old(Text()), t) && Limit() == old(Limit())
    {
      ok := Ensure(|t| + 1);
      if ok {
        WriteString(offset, t);
      }
    }

    /** Text that was appended and text that is held behind it are held together. */
    lemma HoldsJoined(prefix: text, a: text, b: text)
      requires Holds(prefix + a, b)
      ensures Holds(prefix, a + b)
    {
      assert prefix + a + b == prefix + (a + b);
    }

    /** Counts the characters that escaping adds: one, or five for an unnamed control character. */
    static method CountEscapes(input: text) returns (escapes: nat)
      ensures |input| + escapes == |Escape(input)|
      ensures escapes == 0 ==> Escape(input) == input
    {
      hide EscapeChar;
      escapes := 0;
      for i := 0 to |input|
        invariant i + escapes == |Escape(input[..i])|
        invariant escapes == 0 ==> Escape(input[..i]) == input[..i]
      {
        var c := input[i];
        EscapeOneMore(input, i);
        EscapeSize(c);
        if c == QUOTE || c == BACKSLASH || c == 0x08 || c == 0x0C || c == 0x0A || c == 0x0D || c == 0x09 {
          escapes := escapes + 1;
        } else if c < 32 {
          escapes := escapes + 5;
        }
      }
      assert input[..|input|] == input;
    }

    /** Prints a string with quotes and escapes; the cursor stays in front of it. */
    method PrintString(input: text) returns (ok: bool)
      requires Valid()
      modifies this, buffer
      ensures buffer == old(buffer) || (fresh(buffer) && !noalloc)
      ensures ok <==> old(offset) + |Quote(input)| + 2 <= old(Limit())
      ensures ok ==> Holds(old(Text()), Quote(input)) && Limit() == old(Limit()) && depth == old(depth)
    {
      hide Escape, EscapeChar, Quote, Limit;
      QuoteSize(input);
      var escapes := CountEscapes(input);
      var outputLength := |input| + escapes;
      ok := Ensure(outputLength + 3);
      if ok {
        WriteQuoted(offset, input, escapes);
      }
    }

    /** Writes the quoted string and a terminator, by plain copying if nothing needs an escape. */
    method WriteQuoted(at: nat, input: text, escapes: nat)
      requires |input| + escapes == |Escape(input)| && (escapes == 0 ==> Escape(input) == input)
      requires at + |Quote(input)| < buffer.Length
      modifies buffer
      ensures buffer[..at + |Quote(input)|] == old(buffer[..at]) + Quote(input)
      ensures buffer[at + |Quote(input)|] == NUL
    {
      hide Escape, Quote;
      QuoteSize(input);
      ghost var prefix := buffer[..at];
      Write(at, [QUOTE]);
      if escapes == 0 {
        Write(at + 1, input);
      } else {
        WriteEscaped(at + 1, input);
      }
      QuoteParts(prefix, input);
      WriteString(at + 1 + |input| + escapes, [QUOTE]);
    }

    /** The second pass of a string with escapes: character by character, each as its escape needs. */
    method WriteEscaped(at: nat, input: text)
      requires at + |Escape(input)| < buffer.Length
      modifies buffer
      ensures buffer[..at + |Escape(input)|] == old(buffer[..at]) + Escape(input)
    {
      hide EscapeChar, Escape;
      ghost var prefix := buffer[..at];
      var o := at;
      EscapeNothing();
      assert input[..0] == [];
      for i := 0 to |input|
        invariant o == at + |Escape(input[..i])| && o < buffer.Length
        invariant buffer[..o] == prefix + Escape(input[..i])
      {
        EscapeOneMore(input, i);
        EscapePrefix(input, i + 1);
        o := WriteCharacter(o, input[i]);
        assert prefix + Escape(input[..i]) + EscapeChar(input[i]) == prefix + Escape(input[..i + 1]);
      }
      assert input[..|input|] == input;
    }

    /**
     Writes one character as its escape needs, and returns the position behind
     it. The hexadecimal escape of a control character is stored with a
     terminator behind it, for which there must be room.
     */
    method WriteCharacter(at: nat, c: uchar) returns (o: nat)
      requires at + |EscapeChar(c)| < buffer.Length
      modifies buffer
      ensures o == at + |EscapeChar(c)| && buffer[..o] == old(buffer[..at]) + EscapeChar(c)
    {
      hide EscapeChar, CodeText;
      if c > 31 && c != QUOTE && c != BACKSLASH {
        PlainCharacter(c);
        Write(at, [c]);
        return at + 1;
      }
      var letter := EscapeLetter(c);
      EscapedCharacter(c);
      if letter.Some? {
        Write(at, [BACKSLASH, letter.value]);
        return at + 2;
      }
      Write(at, [BACKSLASH]);
      WriteString(at + 1, CodeText(c));
      return at + 6;
    }

    /** Prints an integral number and moves the cursor behind it. */
    method PrintNumber(value: real) returns (ok: bool)
      requires Valid() && PrintsAsInt(value)
      modifies this, buffer
      ensures buffer == old(buffer) || (fresh(buffer) && !noalloc)
      ensures ok <==> old(offset) + |Decimal(IntValue(value))| + 2 <= old(Limit())
      ensures ok ==> Holds(old(Text()), Decimal(IntValue(value))) && Limit() == old(Limit()) && depth == old(depth)
    {
      hide Decimal, IntValue;
      var number := Decimal(IntValue(value));
      ok := Ensure(|number| + 1);
      if ok {
        WriteString(offset, number);
        offset := offset + |number|;
      }
    }

    /**
     Prints the value of a node behind the cursor. It succeeds exactly when the
     rendering, its terminator and one more character fit within the limit.
     */
    method PrintValue(item: Node, ghost sh: Shape, ghost v: Json, ghost name: Option<text>) returns (ok: bool)
      requires Valid() && Plain(v) && sh.node == item && Represents(sh, v, name)
      modifies this, buffer
      ensures buffer == old(buffer) || (fresh(buffer) && !noalloc)
      ensures ok <==> old(offset) + |Render(v, format, old(depth))| + 2 <= old(Limit())
      ensures ok ==> Holds(old(Text()), Render(v, format, old(depth))) && Limit() == old(Limit()) && depth == old(depth)
      decreases v, 2
    {
      hide Holds, Quote, Decimal, IntValue, RenderItems, RenderMembers, Represents;
      PayloadHeld(sh, v, name);
      match item.payload.kind {
        case NullKind => ok := PrintWord(NULL_TEXT);
        case FalseKind => ok := PrintWord(FALSE_TEXT);
        case TrueKind => ok := PrintWord(TRUE_TEXT);
        case NumberKind => ok := PrintNumber(item.payload.number);
        case StringKind => ok := PrintString(item.payload.str);
        case ArrayKind => ok := PrintArray(item, sh, v.items, name);
        case ObjectKind => ok := PrintObject(item, sh, v.members, name);
      }
    }

    method PrintArray(item: Node, ghost sh: Shape, ghost items: seq<Json>, ghost name: Option<text>) returns (ok: bool)
      requires Valid() && Plain(Array(items)) && sh.node == item && Represents(sh, Array(items), name)
      modifies this, buffer
      ensures buffer == old(buffer) || (fresh(buffer) && !noalloc)
      ensures ok <==> old(offset) + |Render(Array(items), format, old(depth))| + 2 <= old(Limit())
      ensures ok ==> Holds(old(Text()), Render(Array(items), format, old(depth)))
                     && Limit() == old(Limit()) && depth == old(depth)
      decreases items, 5
    {
      hide Render, RenderItems, Holds, Limit, Represents, ItemsHeld, NodesOf, Plain;
      PlainItems(items);
      ArrayRender(items, format, depth);
      ghost var before := Text();
      ghost var body := RenderItems(items, format, depth + 1);
      ArrayHeld(sh, items, name);
      assert allocated(NodesOf(sh.kids));
      var current := item.child;
      ok := Append(1, [OPEN_BRACKET]);
      if !ok {
        return;
      }
      depth := depth + 1;
      ok := PrintElements(current, sh.kids, items);
      if !ok {
        return;
      }
      assert before + [OPEN_BRACKET] + body == before + ([OPEN_BRACKET] + body);
      ok := PrintWord([CLOSE_BRACKET]);
      if !ok {
        return;
      }
      HoldsJoined(before, [OPEN_BRACKET] + body, [CLOSE_BRACKET]);
      depth := depth - 1;
    }

    /** The element loop, along the links of the list. */
    method PrintElements(first: Node?, ghost kids: seq<Shape>, ghost items: seq<Json>) returns (ok: bool)
      requires Valid() && forall i :: 0 <= i < |items| ==> Plain(items[i])
      requires ItemsHeld(kids, items) && first == KidAt(kids, 0)
      modifies this, buffer
      ensures buffer == old(buffer) || (fresh(buffer) && !noalloc)
      ensures ok ==> Valid() && Text() == old(Text()) + RenderItems(items, format, old(depth))
                     && Limit() == old(Limit()) && depth == old(depth)
      ensures !ok ==> old(offset) + |RenderItems(items, format, old(depth))| + 2 > old(Limit())
      decreases items, 4
    {
      hide RenderItems, Render, Separator, Plain, Limit, Represents, ItemsHeld, NodesOf;
      ghost var before, limit := Text(), Limit();
      ghost var body := RenderItems(items, format, depth);
      assert items[0..] == items;
      assert allocated(NodesOf(kids));
      HeldLengths(kids, items);
      var current := first;
      ghost var i := 0;
      while current != null
        invariant 0 <= i <= |items| && current == KidAt(kids, i)
        invariant ItemsHeld(kids, items)
        invariant buffer == old(buffer) || (fresh(buffer) && !noalloc)
        invariant Valid() && Limit() == limit && depth == old(depth)
        invariant Text() + RenderItems(items[i..], format, depth) == before + body
        decreases |items| - i
      {
        ghost var text, rest := Text(), RenderItems(items[i + 1..], format, depth);
        ghost var piece := Render(items[i], format, depth) + if i + 1 < |items| then Separator(format) else [];
        ItemsUnfold(items, i, format, depth);
        assert text + (piece + rest) == before + body;
        assert |text| + |piece| + |rest| == |before| + |body|;
        ItemHeld(kids, items, i);
        ok := PrintElement(current, kids[i], items[i]);
        if !ok {
          return;
        }
        assert text + piece + rest == text + (piece + rest);
        ItemHeld(kids, items, i);
        current := current.next;
        i := i + 1;
      }
      ItemsEnd(items, format, depth);
      assert Text() + [] == Text();
      ok := true;
    }

    /** The body of the element loop: the element and, if another follows, the separator. */
    method PrintElement(item: Node, ghost sh: Shape, ghost v: Json) returns (ok: bool)
      requires Valid() && Plain(v) && sh.node == item && Represents(sh, v, None)
      modifies this, buffer
      ensures buffer == old(buffer) || (fresh(buffer) && !noalloc)
      ensures var piece := Render(v, format, old(depth)) + if item.next != null then Separator(format) else [];
              && (ok <==> old(offset) + |piece| + 2 <= old(Limit()))
              && (ok ==> Valid() && Text() == old(Text()) + piece && Limit() == old(Limit()) && depth == old(depth))
      decreases v, 3
    {
      hide Render, Holds, Limit, Plain, Represents;
      ghost var before := Text();
      ghost var r := Render(v, format, depth);
      RenderNulFree(v, format, depth);
      ok := PrintValue(item, sh, v, None);
      if !ok {
        return;
      }
      UpdateOffset(before, r);
      if item.next != null {
        ok := AppendString(Separator(format));
      }
    }

    method PrintObject(item: Node, ghost sh: Shape, ghost members: seq<Member>, ghost name: Option<text>)
      returns (ok: bool)
      requires Valid() && Plain(Object(members)) && sh.node == item && Represents(sh, Object(members), name)
      modifies this, buffer
      ensures buffer == old(buffer) || (fresh(buffer) && !noalloc)
      ensures ok <==> old(offset) + |Render(Object(members), format, old(depth))| + 2 <= old(Limit())
      ensures ok ==> Holds(old(Text()), Render(Object(members), format, old(depth)))
                     && Limit() == old(Limit()) && depth == old(depth)
      decreases members, 7
    {
      hide Render, RenderMembers, Holds, Limit, Represents, MembersHeld, NodesOf, Plain, NulFree, Opening, Closing,
           Text, KidAt;
      PlainMembers(members);
      ghost var before := Text();
      ghost var front := Opening(format) + RenderMembers(members, format, depth + 1);
      ObjectRender(members, format, depth);
      ObjectHeld(sh, members, name);
      assert allocated(NodesOf(sh.kids));
      ok := PrintObjectFront(item.child, sh.kids, members);
      if !ok {
        return;
      }
      TextSize();
      ok := PrintWord(Closing(format, depth - 1));
      if !ok {
        return;
      }
      HoldsJoined(before, front, Closing(format, depth - 1));
      depth := depth - 1;
    }

    lemma TextSize()
      requires Valid()
      ensures |Text()| == offset
    {}

    /** The opening brace and the members, one level deeper. */
    method PrintObjectFront(child: Node?, ghost kids: seq<Shape>, ghost members: seq<Member>) returns (ok: bool)
      requires Valid() && forall i :: 0 <= i < |members| ==> NulFree(members[i].key) && Plain(members[i].value)
      requires MembersHeld(kids, members) && child == KidAt(kids, 0)
      modifies this, buffer
      ensures buffer == old(buffer) || (fresh(buffer) && !noalloc)
      ensures ok ==> Valid()
                     && Text() == old(Text()) + (Opening(format) + RenderMembers(members, format, old(depth) + 1))
                     && Limit() == old(Limit()) && depth == old(depth) + 1
      ensures ok ==> offset == old(offset) + |Opening(format) + RenderMembers(members, format, old(depth) + 1)|
      ensures !ok ==>
                old(offset) + |Opening(format)| + |RenderMembers(members, format, old(depth) + 1)| + 2 > old(Limit())
      decreases members, 6
    {
      hide RenderMembers, Limit, MembersHeld, NodesOf, Plain, NulFree, Opening, KidAt;
      ghost var before := Text();
      ghost var body := RenderMembers(members, format, depth + 1);
      assert allocated(NodesOf(kids));
      var current := child;
      var length := if format then 2 else 1;
      ok := Append(length + 1, Opening(format));
      if !ok {
        return;
      }
      depth := depth + 1;
      ok := PrintMembers(current, kids, members);
      if ok {
        assert before + Opening(format) + body == before + (Opening(format) + body);
      }
    }

    /** The member loop, along the links of the list. */
    method PrintMembers(first: Node?, ghost kids: seq<Shape>, ghost members: seq<Member>) returns (ok: bool)
      requires Valid() && forall i :: 0 <= i < |members| ==> NulFree(members[i].key) && Plain(members[i].value)
      requires MembersHeld(kids, members) && first == KidAt(kids, 0)
      modifies this, buffer
      ensures buffer == old(buffer) || (fresh(buffer) && !noalloc)
      ensures ok ==> Valid() && Text() == old(Text()) + RenderMembers(members, format, old(depth))
                     && Limit() == old(Limit()) && depth == old(depth)
      ensures !ok ==> old(offset) + |RenderMembers(members, format, old(depth))| + 2 > old(Limit())
      decreases members, 5
    {
      hide RenderMembers, RenderMember, Plain, Limit, Represents, MembersHeld, NodesOf;
      ghost var before, limit := Text(), Limit();
      ghost var body := RenderMembers(members, format, depth);
      assert members[0..] == members;
      assert allocated(NodesOf(kids));
      MemberLengths(kids, members);
      var current := first;
      ghost var i := 0;
      while current != null
        invariant 0 <= i <= |members| && current == KidAt(kids, i)
        invariant MembersHeld(kids, members)
        invariant buffer == old(buffer) || (fresh(buffer) && !noalloc)
        invariant Valid() && Limit() == limit && depth == old(depth)
        invariant Text() + RenderMembers(members[i..], format, depth) == before + body
        decreases |members| - i
      {
        ghost var text, rest := Text(), RenderMembers(members[i + 1..], format, depth);
        ghost var piece := RenderMember(members[i], format, depth, i + 1 == |members|);
        MembersUnfold(members, i, format, depth);
        assert text + (piece + rest) == before + body;
        assert |text| + |piece| + |rest| == |before| + |body|;
        MemberHeld(kids, members, i);
        ok := PrintMember(current, kids[i], members[i]);
        if !ok {
          return;
        }
        assert text + piece + rest == text + (piece + rest);
        MemberHeld(kids, members, i);
        current := current.next;
        i := i + 1;
      }
      MembersEnd(members, format, depth);
      assert Text() + [] == Text();
      ok := true;
    }

    /** The body of the member loop: indentation, key, value, and what separates it from the next. */
    method PrintMember(item: Node, ghost sh: Shape, ghost m: Member) returns (ok: bool)
      requires Valid() && NulFree(m.key) && Plain(m.value)
      requires sh.node == item && Represents(sh, m.value, Some(m.key)) && item.payload.name == Some(m.key)
      modifies this, buffer
      ensures buffer == old(buffer) || (fresh(buffer) && !noalloc)
      ensures ok <==> old(offset) + |RenderMember(m, format, old(depth), item.next == null)| + 2 <= old(Limit())
      ensures ok ==> Valid() && Text() == old(Text()) + RenderMember(m, format, old(depth), item.next == null)
                     && Limit() == old(Limit()) && depth == old(depth)
      decreases m, 4
    {
      hide Render, KeyText, MemberEnd, Plain, RenderMember, Holds, Limit, Represents, NodesOf;
      ghost var before := Text();
      ghost var value := Render(m.value, format, depth);
      MemberParts(before, m, format, depth, item.next == null);
      assert allocated(NodesOf(sh.kids));
      ok := PrintKey(item.payload.name.value);
      if !ok {
        return;
      }
      ghost var keyed := Text();
      RenderNulFree(m.value, format, depth);
      ok := PrintValue(item, sh, m.value, Some(m.key));
      if !ok {
        return;
      }
      UpdateOffset(keyed, value);
      ok := AppendString(MemberEnd(format, item.next == null));
    }

    method PrintKey(key: text) returns (ok: bool)
      requires Valid() && NulFree(key)
      modifies this, buffer
      ensures buffer == old(buffer) || (fresh(buffer) && !noalloc)
      ensures ok ==> Valid() && Text() == old(Text()) + KeyText(key, format, old(depth))
                     && Limit() == old(Limit()) && depth == old(depth)
      ensures !ok ==> old(offset) + |KeyText(key, format, old(depth))| + 2 > old(Limit())
    {
      hide Quote, Tabs, Limit, Holds, KeySeparator;
      if format {
        ok := Append(depth, Tabs(depth));
        if !ok {
          return;
        }
      }
      ghost var indented := Text();
      ok := PrintString(key);
      if !ok {
        return;
      }
      QuoteNulFree(key);
      UpdateOffset(indented, Quote(key));
      var length := if format then 2 else 1;
      ok := Append(length, KeySeparator(format));
    }
  }

  /**
   Prints into a growing buffer. The result is the rendering, for every tree
   whose rendering is at least two characters shorter than the largest `int`;
   for longer ones there is no result.
   */
  method Print(item: Node, format: bool, hasReallocate: bool, ghost sh: Shape, ghost v: Json, ghost name: Option<text>)
    returns (printed: Option<text>)
    requires Plain(v) && sh.node == item && Represents(sh, v, name)
    ensures printed == if |Render(v, format, 0)| + 2 <= INT_MAX then Some(Render(v, format, 0)) else None
  {
    hide Render, Plain, Represents, NodesOf;
    assert allocated(NodesOf(sh.kids));
    var p := new PrintBuffer(256, false, format, hasReallocate);
    var ok := p.PrintValue(item, sh, v, name);
    if !ok {
      return None;
    }
    RenderNulFree(v, format, 0);
    p.UpdateOffset([], Render(v, format, 0));
    assert [] + Render(v, format, 0) == Render(v, format, 0);
    printed := Some(p.buffer[..p.offset]);
  }

  /**
   Prints into the caller's buffer: it succeeds exactly when the rendering and
   two more characters fit, and then the buffer holds it with a terminator.
   */
  method PrintPreallocated(item: Node, buffer: array<uchar>, format: bool, ghost sh: Shape, ghost v: Json,
                           ghost name: Option<text>)
    returns (ok: bool)
    requires Plain(v) && sh.node == item && Represents(sh, v, name) && buffer.Length <= INT_MAX
    modifies buffer
    ensures ok <==> |Render(v, format, 0)| + 2 <= buffer.Length
    ensures ok ==> var r := Render(v, format, 0);
                   buffer[..|r|] == r && buffer[|r|] == NUL
  {
    hide Render, Plain, Represents, NodesOf;
    if buffer.Length == 0 {
      return false;
    }
    assert allocated(NodesOf(sh.kids));
    var p := new PrintBuffer.Preallocated(buffer, format);
    ok := p.PrintValue(item, sh, v, name);
    assert [] + Render(v, format, 0) == Render(v, format, 0);
  }

  function KeyText(key: text, fmt: bool, depth: nat): text {
    Indent(fmt, depth) + Quote(key) + KeySeparator(fmt)
  }

  lemma QuoteNulFree(key: text)
    requires NulFree(key)
    ensures NulFree(Quote(key))
  {
    EscapeNulFree(key);
  }

  lemma MemberParts(prefix: text, m: Member, fmt: bool, depth: nat, last: bool)
    ensures prefix + RenderMember(m, fmt, depth, last)
              == prefix + KeyText(m.key, fmt, depth) + Render(m.value, fmt, depth) + MemberEnd(fmt, last)
    ensures |RenderMember(m, fmt, depth, last)|
              == |KeyText(m.key, fmt, depth)| + |Render(m.value, fmt, depth)| + |MemberEnd(fmt, last)|
  {
    hide Render, Indent, Quote, KeySeparator, MemberEnd;
  }

  lemma PlainItems(items: seq<Json>)
    ensures Plain(Array(items)) <==> forall i :: 0 <= i < |items| ==> Plain(items[i])
  {}

  lemma PlainMembers(ms: seq<Member>)
    ensures Plain(Object(ms)) <==> forall i :: 0 <= i < |ms| ==> NulFree(ms[i].key) && Plain(ms[i].value)
  {}

  lemma ArrayRender(items: seq<Json>, fmt: bool, depth: nat)
    ensures Render(Array(items), fmt, depth) == [OPEN_BRACKET] + RenderItems(items, fmt, depth + 1) + [CLOSE_BRACKET]
  {}

  lemma ObjectRender(ms: seq<Member>, fmt: bool, depth: nat)
    ensures Render(Object(ms), fmt, depth)
              == Opening(fmt) + RenderMembers(ms, fmt, depth + 1) + Closing(fmt, depth)
  {
    hide RenderMembers, Indent, Opening;
    var a, b, c := Opening(fmt), RenderMembers(ms, fmt, depth + 1), Indent(fmt, depth);
    assert a + b + (c + [CLOSE_BRACE]) == a + b + c + [CLOSE_BRACE];
  }

  lemma MembersUnfold(ms: seq<Member>, i: nat, fmt: bool, depth: nat)
    requires i < |ms|
    ensures RenderMembers(ms[i..], fmt, depth)
              == RenderMember(ms[i], fmt, depth, i + 1 == |ms|) + RenderMembers(ms[i + 1..], fmt, depth)
  {
    hide RenderMember;
    assert ms[i..][1..] == ms[i + 1..];
  }

  lemma MembersEnd(ms: seq<Member>, fmt: bool, depth: nat)
    ensures RenderMembers(ms[|ms|..], fmt, depth) == []
  {
    assert ms[|ms|..] == [];
  }

  lemma ItemsUnfold(items: seq<Json>, i: nat, fmt: bool, depth: nat)
    requires i < |items|
    ensures RenderItems(items[i..], fmt, depth)
              == Render(items[i], fmt, depth) + (if i + 1 < |items| then Separator(fmt) else [])
                 + RenderItems(items[i + 1..], fmt, depth)
  {
    hide Render, Separator;
    assert items[i..][1..] == items[i + 1..];
  }

  lemma ItemsEnd(items: seq<Json>, fmt: bool, depth: nat)
    ensures RenderItems(items[|items|..], fmt, depth) == []
  {
    assert items[|items|..] == [];
  }

  lemma QuoteParts(prefix: text, input: text)
    ensures prefix + [QUOTE] + Escape(input) + [QUOTE] == prefix + Quote(input)
  {}

  lemma QuoteSize(input: text)
    ensures |Quote(input)| == |Escape(input)| + 2
  {}

  /** The letter of a two-character escape. */
  function EscapeLetter(c: uchar): Option<uchar> {
    match c
    case 0x5C => Some(0x5C)
    case 0x22 => Some(0x22)
    case 0x08 => Some(0x62)
    case 0x0C => Some(0x66)
    case 0x0A => Some(0x6E)
    case 0x0D => Some(0x72)
    case 0x09 => Some(0x74)
    case _ => None
  }

  lemma EscapedCharacter(c: uchar)
    requires !(c > 31 && c != QUOTE && c != BACKSLASH)
    ensures EscapeLetter(c).None? ==> c < 32
    ensures EscapeChar(c) == match EscapeLetter(c)
                             case Some(l) => [BACKSLASH, l]
                             case None => [BACKSLASH] + CodeText(c)
  {}

  /** What "u%04x" makes of a control character. */
  function CodeText(c: uchar): (t: text)
    requires c < 32
    ensures |t| == 5
  {
    [Utf16.LOWER_U, 0x30, 0x30, HexDigit(c as int / 16), HexDigit(c as int % 16)]
  }

  lemma PlainCharacter(c: uchar)
    requires c > 31 && c != QUOTE && c != BACKSLASH
    ensures EscapeChar(c) == [c]
  {}

  lemma EscapeSize(c: uchar)
    ensures |EscapeChar(c)| ==
            if c == QUOTE || c == BACKSLASH || c == 0x08 || c == 0x0C || c == 0x0A || c == 0x0D || c == 0x09 then 2
            else if c < 32 then 6 else 1
    ensures |EscapeChar(c)| == 1 ==> EscapeChar(c) == [c]
  {}

  lemma EscapeNothing()
    ensures Escape([]) == []
  {}

  lemma EscapeOneMore(input: text, i: nat)
    requires i < |input|
    ensures Escape(input[..i + 1]) == Escape(input[..i]) + EscapeChar(input[i])
  {
    hide EscapeChar;
    assert input[..i + 1] == input[..i] + [input[i]];
    EscapeConcat(input[..i], [input[i]]);
    assert Escape([input[i]]) == EscapeChar(input[i]) + Escape([]);
  }

  lemma EscapePrefix(input: text, i: nat)
    requires i <= |input|
    ensures |Escape(input[..i])| <= |Escape(input)|
  {
    hide EscapeChar;
    assert input == input[..i] + input[i..];
    EscapeConcat(input[..i], input[i..]);
  }
}
