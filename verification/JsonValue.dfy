/**
 JSON trees and the pure renderer that the buffer-writing printer of
 components/dsp_json/cjson/cJSON.c refines.
 */
module JsonValue {
  import opened CText
  import opened JsonString
  import opened JsonNumber

  datatype Json =
    | Null
    | False
    | True
    | Number(value: real)
    | String(str: text)
    | Array(items: seq<Json>)
    | Object(members: seq<Member>)

  datatype Member = Member(key: text, value: Json)

  const NULL_TEXT: text := [0x6E, 0x75, 0x6C, 0x6C]
  const TRUE_TEXT: text := [0x74, 0x72, 0x75, 0x65]
  const FALSE_TEXT: text := [0x66, 0x61, 0x6C, 0x73, 0x65]

  // ---------------------------------------------------------------------
  // The trees that are considered
  // ---------------------------------------------------------------------

  /** C strings without terminators inside, and numbers that print as integers. */
  ghost predicate Plain(t: Json) {
    match t
    case Number(r) => PrintsAsInt(r)
    case String(s) => NulFree(s)
    case Array(items) => forall i :: 0 <= i < |items| ==> Plain(items[i])
    case Object(ms) => forall i :: 0 <= i < |ms| ==> NulFree(ms[i].key) && Plain(ms[i].value)
    case _ => true
  }

  /** No string or key holds a terminator. */
  ghost predicate Clean(t: Json) {
    match t
    case String(s) => NulFree(s)
    case Array(items) => forall i :: 0 <= i < |items| ==> Clean(items[i])
    case Object(ms) => forall i :: 0 <= i < |ms| ==> NulFree(ms[i].key) && Clean(ms[i].value)
    case _ => true
  }

  /** All numbers print as integers. */
  ghost predicate Integers(t: Json) {
    match t
    case Number(r) => PrintsAsInt(r)
    case Array(items) => forall i :: 0 <= i < |items| ==> Integers(items[i])
    case Object(ms) => forall i :: 0 <= i < |ms| ==> Integers(ms[i].value)
    case _ => true
  }

  lemma {:induction false} PlainParts(t: Json)
    ensures Plain(t) <==> Clean(t) && Integers(t)
  {
    match t
    case Array(items) =>
      forall i | 0 <= i < |items| ensures Plain(items[i]) <==> Clean(items[i]) && Integers(items[i]) {
        PlainParts(items[i]);
      }
    case Object(ms) =>
      forall i | 0 <= i < |ms| ensures Plain(ms[i].value) <==> Clean(ms[i].value) && Integers(ms[i].value) {
        PlainParts(ms[i].value);
      }
    case _ =>
  }

  /** At most `limit` arrays and objects around any value. */
  ghost predicate NestsWithin(t: Json, limit: int) {
    match t
    case Array(items) => limit > 0 && forall i :: 0 <= i < |items| ==> NestsWithin(items[i], limit - 1)
    case Object(ms) => limit > 0 && forall i :: 0 <= i < |ms| ==> NestsWithin(ms[i].value, limit - 1)
    case _ => true
  }

  // ---------------------------------------------------------------------
  // Rendering
  // ---------------------------------------------------------------------

  function Tabs(n: nat): (t: text)
    ensures |t| == n
  {
    seq(n, _ => TAB)
  }

  function Separator(fmt: bool): text {
    if fmt then [COMMA, SPACE] else [COMMA]
  }

  function KeySeparator(fmt: bool): (t: text)
    ensures |t| == if fmt then 2 else 1
  {
    if fmt then [COLON, TAB] else [COLON]
  }

  function Opening(fmt: bool): (t: text)
    ensures |t| == if fmt then 2 else 1
  {
    if fmt then [OPEN_BRACE, NEWLINE] else [OPEN_BRACE]
  }

  function Indent(fmt: bool, depth: nat): text {
    if fmt then Tabs(depth) else []
  }

  /** What follows the members of an object. */
  function Closing(fmt: bool, depth: nat): (t: text)
    ensures t != []
  {
    Indent(fmt, depth) + [CLOSE_BRACE]
  }

  /** What follows a member: a comma unless it is the last one, and a line break when formatting. */
  function MemberEnd(fmt: bool, last: bool): text {
    (if last then [] else [COMMA]) + (if fmt then [NEWLINE] else [])
  }

  function Render(t: Json, fmt: bool, depth: nat): text
    decreases t
  {
    match t
    case Null => NULL_TEXT
    case False => FALSE_TEXT
    case True => TRUE_TEXT
    case Number(r) => Decimal(IntValue(r))
    case String(s) => Quote(s)
    case Array(items) => [OPEN_BRACKET] + RenderItems(items, fmt, depth + 1) + [CLOSE_BRACKET]
    case Object(ms) => Opening(fmt) + RenderMembers(ms, fmt, depth + 1) + Indent(fmt, depth) + [CLOSE_BRACE]
  }

  function RenderItems(items: seq<Json>, fmt: bool, depth: nat): text
    decreases items
  {
    if items == [] then []
    else Render(items[0], fmt, depth) + (if |items| > 1 then Separator(fmt) else [])
         + RenderItems(items[1..], fmt, depth)
  }

  function RenderMember(m: Member, fmt: bool, depth: nat, last: bool): text
    decreases m
  {
    Indent(fmt, depth) + Quote(m.key) + KeySeparator(fmt) + Render(m.value, fmt, depth) + MemberEnd(fmt, last)
  }

  function RenderMembers(ms: seq<Member>, fmt: bool, depth: nat): text
    decreases ms
  {
    if ms == [] then []
    else RenderMember(ms[0], fmt, depth, |ms| == 1) + RenderMembers(ms[1..], fmt, depth)
  }

  lemma {:induction false} RenderNulFree(t: Json, fmt: bool, depth: nat)
    requires Plain(t)
    ensures NulFree(Render(t, fmt, depth)) && Render(t, fmt, depth) != []
    decreases t
  {
    match t
    case String(s) => EscapeNulFree(s);
    case Array(items) => RenderItemsNulFree(items, fmt, depth + 1);
    case Object(ms) => RenderMembersNulFree(ms, fmt, depth + 1);
    case _ =>
  }

  lemma {:induction false} RenderItemsNulFree(items: seq<Json>, fmt: bool, depth: nat)
    requires forall i :: 0 <= i < |items| ==> Plain(items[i])
    ensures NulFree(RenderItems(items, fmt, depth))
    decreases items
  {
    if items != [] {
      RenderNulFree(items[0], fmt, depth);
      RenderItemsNulFree(items[1..], fmt, depth);
    }
  }

  lemma {:induction false} RenderMembersNulFree(ms: seq<Member>, fmt: bool, depth: nat)
    requires forall i :: 0 <= i < |ms| ==> NulFree(ms[i].key) && Plain(ms[i].value)
    ensures NulFree(RenderMembers(ms, fmt, depth))
    decreases ms
  {
    if ms != [] {
      EscapeNulFree(ms[0].key);
      RenderNulFree(ms[0].value, fmt, depth);
      RenderMembersNulFree(ms[1..], fmt, depth);
    }
  }
}
