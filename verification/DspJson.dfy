/**
 The field helpers on top of the JSON engine (components/dsp_json/dsp_json.c).
 A string in a tree stands for the C string its node holds.
 */
module DspJson {
  import opened CText
  import opened JsonNumber
  import opened JsonValue
  import opened JsonList
  import opened JsonTree
  import opened JsonNodes
  import opened JsonEdit
  import JsonParse
  import JsonPrint

  // ---------------------------------------------------------------------
  // Storing strings
  // ---------------------------------------------------------------------

  /** The members after storing a string under a key. */
  function Put(ms: seq<Member>, key: text, val: text): seq<Member> {
    Deleted(ms, key) + [Member(key, String(val))]
  }

  ghost predicate UniqueKeys(ms: seq<Member>) {
    forall i, j :: 0 <= i < j < |ms| ==> ms[i].key != ms[j].key
  }

  ghost predicate HasKey(ms: seq<Member>, key: text) {
    exists i :: 0 <= i < |ms| && ms[i].key == key
  }

  /**
   Storing replaces: where keys are unique they stay so, the key now yields the
   new string, and every other key yields what it did.
   */
  lemma PutReplaces(ms: seq<Member>, key: text, val: text)
    requires UniqueKeys(ms)
    ensures UniqueKeys(Put(ms, key, val))
    ensures LookUp(Object(Put(ms, key, val)), key) == Some(String(val))
    ensures forall other :: other != key ==> LookUp(Object(Put(ms, key, val)), other) == LookUp(Object(ms), other)
  {
    hide FirstKey;
    var rest, now := Deleted(ms, key), Put(ms, key, val);
    var k := FirstKey(ms, key);
    assert forall i :: 0 <= i < |rest| ==> rest[i] == if i < k then ms[i] else ms[i + 1];
    assert forall i :: 0 <= i < |rest| ==> rest[i].key != key;
    FirstKeyIs(now, key, |rest|);
    forall other | other != key ensures LookUp(Object(now), other) == LookUp(Object(ms), other) {
      var f := FirstKey(ms, other);
      if f == |ms| {
        FirstKeyIs(now, other, |now|);
      } else {
        FirstKeyIs(now, other, if f < k then f else f - 1);
      }
    }
  }

  /** Only the first of several equal keys is removed, so replacing fails exactly where a key is repeated. */
  lemma PutShadowed(ms: seq<Member>, key: text, val: text)
    ensures LookUp(Object(Put(ms, key, val)), key) ==
            if HasKey(Deleted(ms, key), key) then LookUp(Object(Deleted(ms, key)), key) else Some(String(val))
  {
    hide FirstKey, Deleted;
    var rest, now := Deleted(ms, key), Put(ms, key, val);
    var f := FirstKey(rest, key);
    if f < |rest| {
      FirstKeyIs(now, key, f);
    } else {
      FirstKeyIs(now, key, |rest|);
    }
  }

  /** The nodes below an object; an operation on the object may relink them. */
  ghost function Below(obj: Node?, sh: Shape): set<Node> {
    if obj == null then {} else NodesOf(sh.kids)
  }

  /** Removes a member of that name first, then appends the string. */
  method AddString(obj: Node?, key: Option<text>, val: Option<text>, ghost sh: Shape, ghost ms: seq<Member>,
                   ghost name: Option<text>)
    returns (ok: bool, ghost after: Shape)
    requires obj != null ==> sh.node == obj && Represents(sh, Object(ms), name)
    modifies Maybe(obj)`child, Below(obj, sh)`next, Below(obj, sh)`prev
    ensures ok <==> obj != null && key.Some? && val.Some?
    ensures ok ==> after.node == obj && Represents(after, Object(Put(ms, key.value, val.value)), name)
    ensures ok ==> allocated(Nodes(after))
    ensures ok ==> forall n :: n in NodesOf(after.kids) ==> n in NodesOf(sh.kids) || fresh(n)
    ensures !ok && obj != null ==> Represents(sh, Object(ms), name)
  {
    hide Represents, NodesOf, Deleted, Heads;
    after := sh;
    if obj == null || key == None || val == None {
      return false, after;
    }
    assert allocated(NodesOf(sh.kids));
    HeadsInside(sh.kids);
    ghost var rest := DeleteMember(obj, key.value, sh, ms, name);
    HeadsInside(rest.kids);
    var item, x := CreateString(val.value);
    ok, after := AddItemToObject(obj, key, item, rest, Deleted(ms, key.value), name, x, String(val.value), None);
  }

  lemma NothingToDelete(ms: seq<Member>, key: text)
    requires forall i :: 0 <= i < |ms| ==> ms[i].key != key
    ensures Deleted(ms, key) == ms
  {}

  // ---------------------------------------------------------------------
  // Reading fields
  // ---------------------------------------------------------------------

  function Cells(buf: array?<uchar>): set<object> {
    if buf == null then {} else {buf}
  }

  /** The string found under a key, if there is one. */
  function StringField(v: Json, key: text): Option<text> {
    match LookUp(v, key)
    case Some(String(s)) => Some(s)
    case _ => None
  }

  method CopyOut(s: text, buf: array<uchar>)
    requires |s| < buf.Length
    modifies buf
    ensures buf[..|s|] == s && buf[|s|] == NUL
    ensures buf[|s| + 1..] == old(buf[|s| + 1..])
  {
    for i := 0 to |s|
      invariant buf[..i] == s[..i]
      invariant buf[|s| + 1..] == old(buf[|s| + 1..])
    {
      buf[i] := s[i];
    }
    buf[|s|] := NUL;
    assert s[..|s|] == s;
  }

  /** Copies the string out if it and its terminator fit; otherwise the buffer holds the empty string. */
  method GetString(obj: Node?, key: Option<text>, buf: array?<uchar>, cap: nat, ghost sh: Shape, ghost v: Json,
                   ghost name: Option<text>)
    returns (ok: bool)
    requires obj != null ==> sh.node == obj && Represents(sh, v, name)
    requires buf != null ==> cap <= buf.Length
    modifies Cells(buf)
    ensures ok <==> obj != null && key.Some? && buf != null
                    && StringField(v, key.value).Some? && |StringField(v, key.value).value| < cap
    ensures ok <==> obj != null && key.Some? && buf != null
                    && exists s: text :: LookUp(v, key.value) == Some(String(s)) && |s| < cap
    ensures ok ==> var s := StringField(v, key.value).value; buf[..|s|] == s && buf[|s|] == NUL
    ensures !ok && buf != null && cap > 0 ==> buf[0] == NUL
  {
    hide FirstKey, LookUp, Represents, NodesOf;
    if obj == null || key == None || buf == null || cap == 0 {
      if buf != null && cap > 0 {
        buf[0] := NUL;
      }
      return false;
    }
    assert allocated(NodesOf(sh.kids));
    buf[0] := NUL;
    var item, k := GetMember(obj, key, sh, v, name);
    if item != null {
      PayloadHeld(sh.kids[k], LookUp(v, key.value).value, key);
    }
    if item == null || item.payload.kind != StringKind {
      return false;
    }
    var slen := |item.payload.str|;
    if slen >= cap {
      return false;
    }
    CopyOut(item.payload.str, buf);
    return true;
  }

  // ---------------------------------------------------------------------
  // Text
  // ---------------------------------------------------------------------

  method ParseText(str: Option<text>) returns (obj: Node?, ghost sh: Shape)
    requires str.Some? ==> NulFree(str.value)
    ensures obj != null <==> str.Some? && JsonParse.Parse(str.value).Some?
    ensures obj != null ==> sh.node == obj && fresh(Nodes(sh)) && allocated(Nodes(sh))
    ensures obj != null ==> Represents(sh, JsonParse.Parse(str.value).value, None)
  {
    hide JsonParse.Parse, Represents, NodesOf;
    if str == None {
      var none := new Node(NewItem(None));
      return null, Shape(none, []);
    }
    obj, sh := JsonParse.ParseCString(str.value);
  }

  /** The unformatted text of a tree. */
  function Text(t: Json): text {
    Render(t, false, 0)
  }

  /** The text and its terminator fit, and the printer can size its own buffer. */
  predicate Fits(t: Json, cap: nat) {
    |Text(t)| < cap && |Text(t)| + 2 <= INT_MAX
  }

  /** Prints into the caller's buffer, or leaves the empty string there. */
  method PrintText(obj: Node?, buf: array?<uchar>, cap: nat, ghost sh: Shape, ghost v: Json) returns (ok: bool)
    requires obj != null ==> sh.node == obj && Represents(sh, v, None) && Plain(v)
    requires buf != null ==> cap <= buf.Length
    modifies Cells(buf)
    ensures ok <==> obj != null && buf != null && Fits(v, cap)
    ensures ok <==> obj != null && buf != null && |Text(v)| + 1 <= cap && |Text(v)| <= 0x7FFF_FFFD
    ensures ok ==> buf[..|Text(v)|] == Text(v) && buf[|Text(v)|] == NUL
    ensures !ok && buf != null && cap > 0 ==> buf[0] == NUL
  {
    hide Render, Plain, Represents, NodesOf;
    if obj == null || buf == null || cap == 0 {
      if buf != null && cap > 0 {
        buf[0] := NUL;
      }
      return false;
    }
    assert allocated(NodesOf(sh.kids));
    buf[0] := NUL;
    var tmp := JsonPrint.Print(obj, false, true, sh, v, None);
    if tmp == None {
      return false;
    }
    var len := |tmp.value|;
    if len >= cap {
      return false;
    }
    CopyOut(tmp.value, buf);
    return true;
  }
}
