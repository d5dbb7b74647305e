/**
 The recursive-descent parser (components/dsp_json/cjson/cJSON.c, parse_value,
 parse_array, parse_object, buffer_skip_whitespace and the entry points): what
 it reads at a position, as a function, and the cursor-moving code.
 */
module JsonParse {
  import opened CText
  import opened JsonString
  import opened JsonNumber
  import opened JsonValue
  import opened JsonList
  import opened JsonTree
  import opened JsonNodes

  /** CJSON_NESTING_LIMIT. */
  const NESTING_LIMIT: nat := 1000

  datatype ParseResult = Failed | Parsed(value: Json, after: nat)
  datatype ItemsResult = ItemsFailed | Items(items: seq<Json>, after: nat)
  datatype MembersResult = MembersFailed | Members(members: seq<Member>, after: nat)

  // ---------------------------------------------------------------------
  // What is read at a position
  // ---------------------------------------------------------------------

  predicate StartsWith(s: text, i: nat, word: text)
    requires i <= |s|
  {
    i + |word| <= |s| && s[i..i + |word|] == word
  }

  predicate IsAt(s: text, i: nat, c: uchar) {
    i < |s| && s[i] == c
  }

  function NonSpace(s: text, i: nat): (e: nat)
    requires i <= |s|
    ensures i <= e <= |s|
    decreases |s| - i
  {
    if i < |s| && s[i] <= 32 then NonSpace(s, i + 1) else i
  }

  /** Skips white space; a skip that runs off the end steps back onto the last character. */
  function SkipSpace(s: text, i: nat): (e: nat)
    requires i <= |s|
    ensures i <= e <= |s| && (i < |s| ==> e < |s|)
  {
    if i == |s| then i else if NonSpace(s, i) == |s| then |s| - 1 else NonSpace(s, i)
  }

  ghost function ValueAt(s: text, i: nat, depth: nat): (r: ParseResult)
    requires i <= |s|
    ensures r.Parsed? ==> i < r.after <= |s|
    decreases |s| - i, 1
  {
    if StartsWith(s, i, NULL_TEXT) then Parsed(Null, i + 4)
    else if StartsWith(s, i, FALSE_TEXT) then Parsed(False, i + 5)
    else if StartsWith(s, i, TRUE_TEXT) then Parsed(True, i + 4)
    else if IsAt(s, i, QUOTE) then
      match StringAt(s, i)
      case NoString => Failed
      case Quoted(str, after) => Parsed(String(str), after)
    else if i < |s| && (s[i] == MINUS || IsDigit(s[i])) then
      match NumberAt(s, i)
      case NoNumber => Failed
      case ANumber(v, n) => Parsed(Number(v), i + n)
    else if IsAt(s, i, OPEN_BRACKET) then ArrayAt(s, i, depth)
    else if IsAt(s, i, OPEN_BRACE) then ObjectAt(s, i, depth)
    else Failed
  }

  ghost function ArrayAt(s: text, i: nat, depth: nat): (r: ParseResult)
    requires IsAt(s, i, OPEN_BRACKET)
    ensures r.Parsed? ==> i < r.after <= |s|
    decreases |s| - i, 0
  {
    if depth >= NESTING_LIMIT then Failed
    else
      var j := SkipSpace(s, i + 1);
      if IsAt(s, j, CLOSE_BRACKET) then Parsed(Array([]), j + 1)
      else if j >= |s| then Failed
      else
        match ItemsAt(s, j, depth + 1)
        case ItemsFailed => Failed
        case Items(items, after) => Parsed(Array(items), after)
  }

  ghost function ItemsAt(s: text, i: nat, depth: nat): (r: ItemsResult)
    requires i <= |s|
    ensures r.Items? ==> i < r.after <= |s|
    decreases |s| - i, 2
  {
    match ValueAt(s, i, depth)
    case Failed => ItemsFailed
    case Parsed(v, after) =>
      var k := SkipSpace(s, after);
      if IsAt(s, k, COMMA) then
        match ItemsAt(s, SkipSpace(s, k + 1), depth)
        case ItemsFailed => ItemsFailed
        case Items(rest, end) => Items([v] + rest, end)
      else if IsAt(s, k, CLOSE_BRACKET) then Items([v], k + 1)
      else ItemsFailed
  }

  ghost function ObjectAt(s: text, i: nat, depth: nat): (r: ParseResult)
    requires IsAt(s, i, OPEN_BRACE)
    ensures r.Parsed? ==> i < r.after <= |s|
    decreases |s| - i, 0
  {
    if depth >= NESTING_LIMIT then Failed
    else
      var j := SkipSpace(s, i + 1);
      if IsAt(s, j, CLOSE_BRACE) then Parsed(Object([]), j + 1)
      else if j >= |s| then Failed
      else
        match MembersAt(s, j, depth + 1)
        case MembersFailed => Failed
        case Members(ms, after) => Parsed(Object(ms), after)
  }

  ghost function MembersAt(s: text, i: nat, depth: nat): (r: MembersResult)
    requires i < |s|
    ensures r.Members? ==> i < r.after <= |s|
    decreases |s| - i, 2
  {
    match StringAt(s, i)
    case NoString => MembersFailed
    case Quoted(key, behindKey) =>
      var c := SkipSpace(s, behindKey);
      if !IsAt(s, c, COLON) then MembersFailed
      else
        match ValueAt(s, SkipSpace(s, c + 1), depth)
        case Failed => MembersFailed
        case Parsed(v, after) =>
          var k := SkipSpace(s, after);
          if IsAt(s, k, COMMA) then
            if k + 1 >= |s| then MembersFailed
            else
              match MembersAt(s, SkipSpace(s, k + 1), depth)
              case MembersFailed => MembersFailed
              case Members(rest, end) => Members([Member(key, v)] + rest, end)
          else if IsAt(s, k, CLOSE_BRACE) then Members([Member(key, v)], k + 1)
          else MembersFailed
  }

  // ---------------------------------------------------------------------
  // The cursor-moving parser
  // ---------------------------------------------------------------------

  ghost function PrependItems(items: seq<Json>, r: ItemsResult): ItemsResult {
    match r
    case ItemsFailed => ItemsFailed
    case Items(rest, after) => Items(items + rest, after)
  }

  ghost function PrependMembers(ms: seq<Member>, r: MembersResult): MembersResult {
    match r
    case MembersFailed => MembersFailed
    case Members(rest, after) => Members(ms + rest, after)
  }

  lemma PrependItemsTwice(a: seq<Json>, b: seq<Json>, r: ItemsResult)
    ensures PrependItems(a, PrependItems(b, r)) == PrependItems(a + b, r)
    ensures PrependItems([], r) == r
  {
    if r.Items? {
      assert a + (b + r.items) == (a + b) + r.items;
      assert [] + r.items == r.items;
    }
  }

  lemma PrependMembersTwice(a: seq<Member>, b: seq<Member>, r: MembersResult)
    ensures PrependMembers(a, PrependMembers(b, r)) == PrependMembers(a + b, r)
    ensures PrependMembers([], r) == r
  {
    if r.Members? {
      assert a + (b + r.members) == (a + b) + r.members;
      assert [] + r.members == r.members;
    }
  }

  lemma NonSpaceStops(s: text, i: nat)
    requires i <= |s|
    ensures NonSpace(s, i) < |s| ==> s[NonSpace(s, i)] > 32
    decreases |s| - i
  {
    if i < |s| && s[i] <= 32 { NonSpaceStops(s, i + 1); }
  }

  lemma SkipSpaceTwice(s: text, i: nat)
    requires i < |s|
    ensures SkipSpace(s, SkipSpace(s, i)) == SkipSpace(s, i)
  {
    NonSpaceStops(s, i);
    var e := SkipSpace(s, i);
    if NonSpace(s, i) == |s| {
      assert NonSpace(s, e) == if s[e] <= 32 then NonSpace(s, e + 1) else e;
    }
  }

  class ParseBuffer {
    const content: text
    var offset: nat
    var depth: nat

    constructor (content: text)
      ensures this.content == content && offset == 0 && depth == 0
    {
      this.content := content;
      offset := 0;
      depth := 0;
    }

    method SkipWhitespace()
      requires offset <= |content|
      modifies this`offset
      ensures offset == SkipSpace(content, old(offset))
    {
      if offset >= |content| {
        return;
      }
      while offset < |content| && content[offset] <= 32
        invariant old(offset) <= offset <= |content|
        invariant NonSpace(content, offset) == NonSpace(content, old(offset))
      {
        offset := offset + 1;
      }
      if offset == |content| {
        offset := offset - 1;
      }
    }

    /**
     Reads one value at the cursor into a blank node. On success the cursor
     stands just behind the value, and the node, with fresh nodes below it, holds it.
     */
    method ParseValue(item: Node) returns (ok: bool, ghost sh: Shape)
      requires offset <= |content|
      requires item.payload == NewItem(item.payload.name) && item.child == null
      modifies this`offset, this`depth, item`payload, item`child
      ensures offset <= |content|
      ensures ok <==> ValueAt(content, old(offset), old(depth)).Parsed?
      ensures ok ==> offset == ValueAt(content, old(offset), old(depth)).after && depth == old(depth)
      ensures ok ==> sh.node == item && fresh(NodesOf(sh.kids)) && allocated(NodesOf(sh.kids))
      ensures ok ==> Represents(sh, ValueAt(content, old(offset), old(depth)).value, old(item.payload.name))
      decreases |content| - offset, 3
    {
      hide Represents, NodesOf, StringAt, NumberAt, ArrayAt, ObjectAt;
      sh := Shape(item, []);
      if StartsWith(content, offset, NULL_TEXT) {
        SetLeaf(item, Null, item.payload.(kind := NullKind));
        offset := offset + 4;
        return true, sh;
      }
      if StartsWith(content, offset, FALSE_TEXT) {
        SetLeaf(item, False, item.payload.(kind := FalseKind));
        offset := offset + 5;
        return true, sh;
      }
      if StartsWith(content, offset, TRUE_TEXT) {
        SetLeaf(item, True, item.payload.(kind := TrueKind));
        offset := offset + 4;
        return true, sh;
      }
      if IsAt(content, offset, QUOTE) {
        var r := ParseString(content, offset);
        if r.NoString? {
          return false, sh;
        }
        SetLeaf(item, String(r.value), item.payload.(kind := StringKind, str := r.value));
        offset := r.after;
        return true, sh;
      }
      if offset < |content| && (content[offset] == MINUS || IsDigit(content[offset])) {
        var n := ParseNumber(content, offset);
        if n.NoNumber? {
          return false, sh;
        }
        SetLeaf(item, Number(n.value), item.payload.(kind := NumberKind, number := n.value));
        offset := offset + n.consumed;
        return true, sh;
      }
      if IsAt(content, offset, OPEN_BRACKET) {
        ok, sh := ParseArray(item);
        return;
      }
      if IsAt(content, offset, OPEN_BRACE) {
        ok, sh := ParseObject(item);
        return;
      }
      return false, sh;
    }

    method ParseArray(item: Node) returns (ok: bool, ghost sh: Shape)
      requires IsAt(content, offset, OPEN_BRACKET)
      requires item.payload == NewItem(item.payload.name) && item.child == null
      modifies this`offset, this`depth, item`payload, item`child
      ensures offset <= |content|
      ensures ok <==> ArrayAt(content, old(offset), old(depth)).Parsed?
      ensures ok ==> offset == ArrayAt(content, old(offset), old(depth)).after && depth == old(depth)
      ensures ok ==> sh.node == item && fresh(NodesOf(sh.kids)) && allocated(NodesOf(sh.kids))
      ensures ok ==> Represents(sh, ArrayAt(content, old(offset), old(depth)).value, old(item.payload.name))
      decreases |content| - offset, 2
    {
      hide ValueAt, SkipSpace, ItemsAt, Represents, NodesOf, OpenList, Values, ItemTrees;
      sh := Shape(item, []);
      if depth >= NESTING_LIMIT {
        return false, sh;
      }
      depth := depth + 1;
      offset := offset + 1;
      SkipWhitespace();
      var head: Node?, current: Node? := null, null;
      ghost var kids: seq<Shape>, items: seq<Json> := [], [];
      EmptyList();
      if !IsAt(content, offset, CLOSE_BRACKET) {
        if offset >= |content| {
          return false, sh;
        }
        SkipSpaceTwice(content, old(offset) + 1);
        offset := offset - 1;
        ok, head, current, kids, items := ParseElements();
        if !ok || !IsAt(content, offset, CLOSE_BRACKET) {
          return false, sh;
        }
      }
      HeadInside(kids, head, current);
      FinishArray(item, head, current, kids, items);
      depth := depth - 1;
      offset := offset + 1;
      return true, Shape(item, kids);
    }

    /** The element loop: from the character in front of the first element to the one behind the last. */
    method ParseElements()
      returns (ok: bool, head: Node?, current: Node?, ghost kids: seq<Shape>, ghost items: seq<Json>)
      requires offset < |content|
      modifies this`offset, this`depth
      ensures offset <= |content|
      ensures ItemsAt(content, SkipSpace(content, old(offset) + 1), old(depth))
                == if ok && IsAt(content, offset, CLOSE_BRACKET) then Items(items, offset + 1) else ItemsFailed
      ensures ok ==> depth == old(depth)
      ensures ok ==> OpenList(kids, head, current) && fresh(NodesOf(kids)) && allocated(NodesOf(kids))
      ensures ok ==> Values(kids) == ItemTrees(items)
      decreases |content| - offset, 1
    {
      hide *;
      ghost var first := SkipSpace(content, offset + 1);
      head, current, kids, items := null, null, [], [];
      EmptyList();
      PrependItemsTwice([], [], ItemsAt(content, first, depth));
      var more := true;
      while more
        invariant old(offset) <= offset <= |content| && (more ==> offset < |content|)
        invariant depth == old(depth)
        invariant OpenList(kids, head, current) && fresh(NodesOf(kids)) && allocated(NodesOf(kids))
        invariant Values(kids) == ItemTrees(items)
        invariant more ==>
            ItemsAt(content, first, depth)
              == PrependItems(items, ItemsAt(content, SkipSpace(content, offset + 1), depth))
        invariant !more ==>
            ItemsAt(content, first, depth)
              == if IsAt(content, offset, CLOSE_BRACKET) then Items(items, offset + 1) else ItemsFailed
        decreases |content| - offset, more
      {
        ghost var at := SkipSpace(content, offset + 1);
        HeadInside(kids, head, current);
        MaybeOnly(current);
        var read;
        read, head, current, kids := ParseElement(head, current, kids, items);
        if !read {
          ItemsNeedValue(content, at, old(depth));
          PrependItemsFailed(items);
          return false, head, current, kids, items;
        }
        ghost var v := ValueAt(content, at, depth).value;
        more := IsAt(content, offset, COMMA);
        ItemsStep(content, at, depth, v, offset);
        TailMeans(content, offset, depth);
        PrependItemsTwice(items, [v], ItemsTail(content, offset, depth));
        items := items + [v];
        PrependItemsDone(items, offset + 1);
        PrependItemsFailed(items);
      }
      ok := true;
    }

    /** The body of the element loop: a new node, attached to the list, and the value read into it. */
    method ParseElement(head: Node?, current: Node?, ghost kids: seq<Shape>, ghost items: seq<Json>)
      returns (ok: bool, newHead: Node, newItem: Node, ghost grown: seq<Shape>)
      requires offset < |content|
      requires OpenList(kids, head, current) && allocated(NodesOf(kids)) && Values(kids) == ItemTrees(items)
      modifies this`offset, this`depth, Maybe(current)`next
      ensures offset <= |content|
      ensures ok <==> ValueAt(content, SkipSpace(content, old(offset) + 1), old(depth)).Parsed?
      ensures ok ==> depth == old(depth)
      ensures ok ==>
                offset == SkipSpace(content, ValueAt(content, SkipSpace(content, old(offset) + 1), old(depth)).after)
      ensures ok ==> offset > old(offset)
      ensures ok ==> OpenList(grown, newHead, newItem) && fresh(NodesOf(grown) - NodesOf(kids))
                     && allocated(NodesOf(grown))
      ensures ok ==>
                Values(grown)
                  == ItemTrees(items + [ValueAt(content, SkipSpace(content, old(offset) + 1), old(depth)).value])
      decreases |content| - offset, 0
    {
      hide *;
      newHead, newItem := AttachNew(head, current, kids);
      grown := kids;
      offset := offset + 1;
      SkipWhitespace();
      NewItemIs(None);
      ghost var r := ValueAt(content, offset, depth);
      ok, grown := ParseLast(newHead, newItem, kids);
      if ok {
        ItemTreesGrow(items, r.value);
        SkipWhitespace();
      }
    }

    /** Reads the value of the last node of the list under construction. */
    method ParseLast(head: Node, item: Node, ghost kids: seq<Shape>) returns (ok: bool, ghost grown: seq<Shape>)
      requires offset <= |content|
      requires Awaiting(kids, item, head) && allocated(NodesOf(kids))
      requires item.payload == NewItem(item.payload.name) && item.child == null
      modifies this`offset, this`depth, item`payload, item`child
      ensures offset <= |content|
      ensures ok <==> ValueAt(content, old(offset), old(depth)).Parsed?
      ensures ok ==> offset == ValueAt(content, old(offset), old(depth)).after && depth == old(depth)
      ensures ok ==> OpenList(grown, head, item) && allocated(NodesOf(grown))
      ensures ok ==> fresh(NodesOf(grown) - NodesOf(kids) - {item})
      ensures ok ==>
                Values(grown)
                  == old(Values(kids))
                     + [TreeOf(ValueAt(content, old(offset), old(depth)).value, old(item.payload.name))]
      decreases |content| - offset, 4
    {
      hide *;
      ghost var name := item.payload.name;
      ghost var r := ValueAt(content, offset, depth);
      AwaitingParts(kids, item, head);
      ghost var x;
      ok, x := ParseValue(item);
      grown := kids;
      if ok {
        RepresentsParts(x, r.value, name);
        LastGrown(kids, x, head);
        grown := kids + [x];
      }
    }

    /** The body of the member loop: a new node, attached to the list, then the name and the value read into it. */
    method ParseMember(head: Node?, current: Node?, ghost kids: seq<Shape>, ghost ms: seq<Member>)
      returns (ok: bool, newHead: Node, newItem: Node, ghost grown: seq<Shape>, ghost m: Member)
      requires offset < |content|
      requires OpenList(kids, head, current) && allocated(NodesOf(kids)) && Values(kids) == MemberTrees(ms)
      modifies this`offset, this`depth, Maybe(current)`next
      ensures offset <= |content|
      ensures old(offset) + 1 >= |content| ==> !ok
      ensures old(offset) + 1 < |content| ==>
                MembersAt(content, SkipSpace(content, old(offset) + 1), old(depth))
                  == if ok then PrependMembers([m], MembersTail(content, offset, old(depth))) else MembersFailed
      ensures ok ==> depth == old(depth) && offset > old(offset)
      ensures ok ==> OpenList(grown, newHead, newItem) && fresh(NodesOf(grown) - NodesOf(kids))
                     && allocated(NodesOf(grown))
      ensures ok ==> Values(grown) == MemberTrees(ms + [m])
      decreases |content| - offset, 0
    {
      hide *;
      newHead, newItem := AttachNew(head, current, kids);
      grown := kids;
      m := Member([], Null);
      if offset + 1 >= |content| {
        return false, newHead, newItem, grown, m;
      }
      ghost var at, level := SkipSpace(content, offset + 1), depth;
      var key := ParseKey(newItem, level);
      if key == None {
        return false, newHead, newItem, grown, m;
      }
      NewItemIs(key);
      KeyMeans(content, at, key.value, offset);
      ghost var r := ValueAt(content, offset, level);
      ok, grown := ParseLast(newHead, newItem, kids);
      if !ok {
        NoValueNoMember(content, at, level);
        return false, newHead, newItem, grown, m;
      }
      m := Member(key.value, r.value);
      MemberTreesGrow(ms, m);
      SkipWhitespace();
      MembersStep(content, at, level, m, offset);
    }

    /** From the character in front of a key to the first one of the value; the node takes the key for its name. */
    method ParseKey(item: Node, ghost level: nat) returns (key: Option<text>)
      requires offset + 1 < |content|
      requires item.payload == NewItem(None)
      modifies this`offset, item`payload
      ensures offset <= |content| && old(offset) < offset
      ensures var at := SkipSpace(content, old(offset) + 1);
              && (key == None ==> MembersAt(content, at, level) == MembersFailed)
              && (key.Some? ==> KeyAt(content, at, key.value, offset))
      ensures key.Some? ==> item.payload == NewItem(key)
    {
      hide *;
      ghost var at := SkipSpace(content, offset + 1);
      NeedsKeyAndColon(content, at, level);
      offset := offset + 1;
      SkipWhitespace();
      var name := ParseString(content, offset);
      if name.NoString? {
        return None;
      }
      offset := name.after;
      SkipWhitespace();
      NewItemIs(None);
      item.payload := item.payload.(name := Some(name.value));
      NewItemIs(Some(name.value));
      if !IsAt(content, offset, COLON) {
        return None;
      }
      IsAtMeans(content, offset, COLON);
      offset := offset + 1;
      SkipWhitespace();
      KeyRead(content, at, name.value, name.after, offset);
      return Some(name.value);
    }

    method ParseObject(item: Node) returns (ok: bool, ghost sh: Shape)
      requires IsAt(content, offset, OPEN_BRACE)
      requires item.payload == NewItem(item.payload.name) && item.child == null
      modifies this`offset, this`depth, item`payload, item`child
      ensures offset <= |content|
      ensures ok <==> ObjectAt(content, old(offset), old(depth)).Parsed?
      ensures ok ==> offset == ObjectAt(content, old(offset), old(depth)).after && depth == old(depth)
      ensures ok ==> sh.node == item && fresh(NodesOf(sh.kids)) && allocated(NodesOf(sh.kids))
      ensures ok ==> Represents(sh, ObjectAt(content, old(offset), old(depth)).value, old(item.payload.name))
      decreases |content| - offset, 2
    {
      hide ValueAt, SkipSpace, MembersAt, StringAt, Represents, NodesOf, OpenList, Values, MemberTrees;
      sh := Shape(item, []);
      if depth >= NESTING_LIMIT {
        return false, sh;
      }
      depth := depth + 1;
      offset := offset + 1;
      SkipWhitespace();
      var head: Node?, current: Node? := null, null;
      ghost var kids: seq<Shape>, ms: seq<Member> := [], [];
      EmptyList();
      if !IsAt(content, offset, CLOSE_BRACE) {
        if offset >= |content| {
          return false, sh;
        }
        SkipSpaceTwice(content, old(offset) + 1);
        offset := offset - 1;
        ok, head, current, kids, ms := ParseMembers();
        if !ok || !IsAt(content, offset, CLOSE_BRACE) {
          return false, sh;
        }
      }
      HeadInside(kids, head, current);
      FinishObject(item, head, current, kids, ms);
      depth := depth - 1;
      offset := offset + 1;
      return true, Shape(item, kids);
    }

    /** The member loop: from the character in front of the first key to the one behind the last value. */
    method ParseMembers() returns (ok: bool, head: Node?, current: Node?, ghost kids: seq<Shape>, ghost ms: seq<Member>)
      requires offset + 1 < |content|
      modifies this`offset, this`depth
      ensures offset <= |content|
      ensures MembersAt(content, SkipSpace(content, old(offset) + 1), old(depth))
                == if ok && IsAt(content, offset, CLOSE_BRACE) then Members(ms, offset + 1) else MembersFailed
      ensures ok ==> depth == old(depth)
      ensures ok ==> OpenList(kids, head, current) && fresh(NodesOf(kids)) && allocated(NodesOf(kids))
      ensures ok ==> Values(kids) == MemberTrees(ms)
      decreases |content| - offset, 1
    {
      hide *;
      ghost var first := SkipSpace(content, offset + 1);
      head, current, kids, ms := null, null, [], [];
      EmptyList();
      PrependMembersTwice([], [], MembersAt(content, first, depth));
      var more := true;
      while more
        invariant old(offset) <= offset <= |content| && (more ==> offset < |content|)
        invariant depth == old(depth)
        invariant OpenList(kids, head, current) && fresh(NodesOf(kids)) && allocated(NodesOf(kids))
        invariant Values(kids) == MemberTrees(ms)
        invariant more ==>
            MembersAt(content, first, depth)
              == if offset + 1 >= |content| then MembersFailed
                 else PrependMembers(ms, MembersAt(content, SkipSpace(content, offset + 1), depth))
        invariant !more ==>
            MembersAt(content, first, depth)
              == if IsAt(content, offset, CLOSE_BRACE) then Members(ms, offset + 1) else MembersFailed
        decreases |content| - offset, more
      {
        HeadInside(kids, head, current);
        MaybeOnly(current);
        PrependMembersFailed(ms);
        var read;
        ghost var m;
        read, head, current, kids, m := ParseMember(head, current, kids, ms);
        if !read {
          return false, head, current, kids, ms;
        }
        more := IsAt(content, offset, COMMA);
        MembersTailMeans(content, offset, depth);
        PrependMembersTwice(ms, [m], MembersTail(content, offset, depth));
        ms := ms + [m];
        PrependMembersDone(ms, offset + 1);
        PrependMembersFailed(ms);
      }
      ok := true;
    }
  }

  lemma IsAtMeans(s: text, i: nat, c: uchar)
    ensures IsAt(s, i, c) <==> i < |s| && s[i] == c
  {}

  /** A key stands at `i`, followed by a colon, and the value starts at `v`. */
  ghost predicate KeyAt(s: text, i: nat, key: text, v: nat) {
    && i < |s| && StringAt(s, i).Quoted? && StringAt(s, i).value == key
    && var c := SkipSpace(s, StringAt(s, i).after);
       IsAt(s, c, COLON) && v == SkipSpace(s, c + 1)
  }

  lemma KeyRead(s: text, i: nat, key: text, after: nat, v: nat)
    requires i < |s| && StringAt(s, i) == Quoted(key, after) && after <= |s|
    requires IsAt(s, SkipSpace(s, after), COLON) && v == SkipSpace(s, SkipSpace(s, after) + 1)
    ensures KeyAt(s, i, key, v)
  {}

  lemma KeyMeans(s: text, i: nat, key: text, v: nat)
    requires KeyAt(s, i, key, v)
    ensures i < |s| && StringAt(s, i).Quoted? && StringAt(s, i).value == key
    ensures var c := SkipSpace(s, StringAt(s, i).after);
            IsAt(s, c, COLON) && c < |s| && v == SkipSpace(s, c + 1)
  {}

  lemma NeedsKeyAndColon(s: text, i: nat, depth: nat)
    requires i < |s|
    ensures StringAt(s, i).NoString? ==> MembersAt(s, i, depth) == MembersFailed
    ensures StringAt(s, i).Quoted? && !IsAt(s, SkipSpace(s, StringAt(s, i).after), COLON) ==>
              MembersAt(s, i, depth) == MembersFailed
  {
    hide ValueAt, SkipSpace, StringAt;
  }

  lemma NoValueNoMember(s: text, i: nat, depth: nat)
    requires i < |s| && StringAt(s, i).Quoted? && IsAt(s, SkipSpace(s, StringAt(s, i).after), COLON)
    requires ValueAt(s, SkipSpace(s, SkipSpace(s, StringAt(s, i).after) + 1), depth).Failed?
    ensures MembersAt(s, i, depth) == MembersFailed
  {
    hide ValueAt, SkipSpace, StringAt;
  }

  /** What follows a member, from the first non-space character behind its value on. */
  ghost function MembersTail(s: text, k: nat, depth: nat): MembersResult
    requires k <= |s|
  {
    if IsAt(s, k, COMMA) then
      if k + 1 >= |s| then MembersFailed else MembersAt(s, SkipSpace(s, k + 1), depth)
    else if IsAt(s, k, CLOSE_BRACE) then Members([], k + 1)
    else MembersFailed
  }

  lemma MembersTailMeans(s: text, k: nat, depth: nat)
    requires k <= |s|
    ensures IsAt(s, k, COMMA) ==>
              && k < |s|
              && MembersTail(s, k, depth) ==
                 if k + 1 >= |s| then MembersFailed else MembersAt(s, SkipSpace(s, k + 1), depth)
    ensures !IsAt(s, k, COMMA) ==>
              MembersTail(s, k, depth) == if IsAt(s, k, CLOSE_BRACE) then Members([], k + 1) else MembersFailed
  {
    hide MembersAt, SkipSpace;
  }

  /** One round of the member loop, seen from the reading function. */
  lemma MembersStep(s: text, i: nat, depth: nat, m: Member, k: nat)
    requires i < |s| && k <= |s|
    requires StringAt(s, i).Quoted? && StringAt(s, i).value == m.key
    requires var c := SkipSpace(s, StringAt(s, i).after);
             && IsAt(s, c, COLON)
             && var r := ValueAt(s, SkipSpace(s, c + 1), depth);
             r.Parsed? && r.value == m.value && k == SkipSpace(s, r.after)
    ensures MembersAt(s, i, depth) == PrependMembers([m], MembersTail(s, k, depth))
  {
    hide ValueAt, SkipSpace, StringAt;
    assert [m] + [] == [m];
  }

  lemma PrependMembersFailed(ms: seq<Member>)
    ensures PrependMembers(ms, MembersFailed) == MembersFailed
  {}

  lemma PrependMembersDone(ms: seq<Member>, after: nat)
    ensures PrependMembers(ms, Members([], after)) == Members(ms, after)
  {
    assert ms + [] == ms;
  }

  /** What follows an element, from the first non-space character behind it on. */
  ghost function ItemsTail(s: text, k: nat, depth: nat): ItemsResult
    requires k <= |s|
  {
    if IsAt(s, k, COMMA) then ItemsAt(s, SkipSpace(s, k + 1), depth)
    else if IsAt(s, k, CLOSE_BRACKET) then Items([], k + 1)
    else ItemsFailed
  }

  lemma TailMeans(s: text, k: nat, depth: nat)
    requires k <= |s|
    ensures IsAt(s, k, COMMA) ==> k < |s| && ItemsTail(s, k, depth) == ItemsAt(s, SkipSpace(s, k + 1), depth)
    ensures !IsAt(s, k, COMMA) ==>
              ItemsTail(s, k, depth) == if IsAt(s, k, CLOSE_BRACKET) then Items([], k + 1) else ItemsFailed
  {
    hide ItemsAt, SkipSpace;
  }

  /** One round of the element loop, seen from the reading function. */
  lemma ItemsStep(s: text, i: nat, depth: nat, v: Json, k: nat)
    requires i <= |s| && k <= |s|
    requires ValueAt(s, i, depth).Parsed? && ValueAt(s, i, depth).value == v
    requires k == SkipSpace(s, ValueAt(s, i, depth).after)
    ensures ItemsAt(s, i, depth) == PrependItems([v], ItemsTail(s, k, depth))
  {
    hide ValueAt, SkipSpace;
    assert [v] + [] == [v];
  }

  lemma ItemsNeedValue(s: text, i: nat, depth: nat)
    requires i <= |s| && ValueAt(s, i, depth).Failed?
    ensures ItemsAt(s, i, depth) == ItemsFailed
  {}

  lemma PrependItemsFailed(items: seq<Json>)
    ensures PrependItems(items, ItemsFailed) == ItemsFailed
  {}

  lemma PrependItemsDone(items: seq<Json>, after: nat)
    ensures PrependItems(items, Items([], after)) == Items(items, after)
  {
    assert items + [] == items;
  }

  // ---------------------------------------------------------------------
  // Entry points
  // ---------------------------------------------------------------------

  const BYTE_ORDER_MARK: text := [0xEF, 0xBB, 0xBF]

  /** Where the first value may start: behind a byte order mark, if more than one character follows it. */
  function TextStart(content: text): (i: nat)
    ensures i <= |content|
  {
    if |content| > 4 && content[..3] == BYTE_ORDER_MARK then 3 else 0
  }

  /** What a whole text means, and where its value ends. */
  ghost function TextAt(content: text, requireNul: bool): ParseResult {
    if content == [] then Failed
    else
      match ValueAt(content, SkipSpace(content, TextStart(content)), 0)
      case Failed => Failed
      case Parsed(v, after) =>
        if !requireNul then Parsed(v, after)
        else
          var e := SkipSpace(content, after);
          if IsAt(content, e, NUL) then Parsed(v, e) else Failed
  }

  /** The parsed tree consists of fresh nodes only, and nothing hangs beside its root. */
  method ParseWithLengthOpts(content: text, requireNul: bool) returns (item: Node?, parseEnd: nat, ghost sh: Shape)
    ensures item != null <==> TextAt(content, requireNul).Parsed?
    ensures item != null ==> parseEnd == TextAt(content, requireNul).after
    ensures item != null ==>
              sh.node == item && fresh(Nodes(sh)) && allocated(Nodes(sh))
              && Represents(sh, TextAt(content, requireNul).value, None)
  {
    hide ValueAt, SkipSpace, Represents, NodesOf;
    var root := new Node(NewItem(None));
    sh := Shape(root, []);
    if |content| == 0 {
      return null, 0, sh;
    }
    var buffer := new ParseBuffer(content);
    if buffer.offset + 4 < |content| && content[..3] == BYTE_ORDER_MARK {
      buffer.offset := buffer.offset + 3;
    }
    buffer.SkipWhitespace();
    var ok;
    ok, sh := buffer.ParseValue(root);
    if !ok {
      return null, buffer.offset, sh;
    }
    RepresentsParts(sh, ValueAt(content, SkipSpace(content, TextStart(content)), 0).value, None);
    assert allocated(Nodes(sh));
    if requireNul {
      buffer.SkipWhitespace();
      if !IsAt(content, buffer.offset, NUL) {
        return null, buffer.offset, sh;
      }
    }
    return root, buffer.offset, sh;
  }

  /** Parsing a C string: the text including its terminator, trailing garbage allowed. */
  ghost function Parse(str: text): Option<Json> {
    match TextAt(str + [NUL], false)
    case Failed => None
    case Parsed(v, _) => Some(v)
  }

  method ParseCString(str: text) returns (item: Node?, ghost sh: Shape)
    requires NulFree(str)
    ensures item != null <==> Parse(str).Some?
    ensures item != null ==>
              sh.node == item && fresh(Nodes(sh)) && allocated(Nodes(sh)) && Represents(sh, Parse(str).value, None)
  {
    hide Represents, NodesOf;
    var parseEnd;
    item, parseEnd, sh := ParseWithLengthOpts(str + [NUL], false);
  }
}
