/**
 What the POST handlers read out of a request and write into a reply
 (components/dsp_neg/dsp_neg.c and components/dsp_xfer/dsp_xfer.c): the process
 id of a message body or of a request path, and the messages of success.
 */
module Requests {
  import opened CText
  import opened JsonString
  import opened JsonValue
  import opened JsonTree
  import opened JsonNodes
  import opened JsonEdit
  import opened JsonLd
  import opened DspJson
  import opened DspBuild
  import opened DspMsg
  import opened DspText
  import opened Slots
  import JsonParse
  import JsonRoundTrip

  /** NEG_BUF_SIZE and XFER_BUF_SIZE. */
  const BUF_SIZE: nat := 1024

  /** The C string that a handler sees after receiving a body into its buffer. */
  function BodyText(received: text): (body: text)
    ensures NulFree(body)
  {
    CStr(if |received| < BUF_SIZE then received else received[..BUF_SIZE - 1])
  }

  /** A body without terminators arrives whole up to 1023 characters; of a longer one that many are seen. */
  lemma BodyTextMeans(received: text)
    requires NulFree(received)
    ensures |received| <= 1023 ==> BodyText(received) == received
    ensures |received| > 1023 ==> BodyText(received) == received[..1023]
  {
    CStrOfTerminated(if |received| <= 1023 then received else received[..1023], []);
  }

  // ---------------------------------------------------------------------
  // The id in a body
  // ---------------------------------------------------------------------

  lemma FieldIsClean(v: Json, key: text)
    requires Clean(v) && StringField(v, key).Some?
    ensures NulFree(StringField(v, key).value)
  {
    hide FirstKey;
  }

  /** The process id of a message; none if the text does not parse, has no such string, or a longer one. */
  ghost function ProcessId(body: text): (id: text)
    ensures |id| < PID_LEN && NulFree(id)
  {
    match JsonParse.Parse(body)
    case None => []
    case Some(v) =>
      match StringField(v, FieldProcessId())
      case None => []
      case Some(s) =>
        JsonRoundTrip.ParsedIsClean(body);
        FieldIsClean(v, FieldProcessId());
        if |s| < PID_LEN then s else []
  }

  /** A body that is a catalog request was sent to the wrong endpoint. */
  ghost function OffersId(body: text): (id: text)
    ensures |id| < PID_LEN && NulFree(id)
  {
    if Common(Some(body), TypeCatalogRequest()) then [] else ProcessId(body)
  }

  ghost predicate IsTransferRequest(body: text) {
    Common(Some(body), TypeTransferRequest()) && TransferRequestFields(JsonParse.Parse(body).value)
  }

  /** Only a valid transfer request names a transfer to start. */
  ghost function StartId(body: text): (id: text)
    ensures |id| < PID_LEN && NulFree(id)
  {
    if IsTransferRequest(body) then ProcessId(body) else []
  }

  /** A body carries an id exactly when it parses to an object with that string of at most 63 characters. */
  lemma ProcessIdMeans(body: text, id: text)
    requires id != []
    ensures ProcessId(body) == id <==>
            |id| <= 63 && JsonParse.Parse(body).Some?
            && LookUp(JsonParse.Parse(body).value, Lit("dspace:processId")) == Some(String(id))
  {
    hide LookUp, JsonParse.Parse, NulFree, Clean;
  }

  /** An offer is any body with an id but a catalog request. */
  lemma OffersIdMeans(body: text, id: text)
    requires id != []
    ensures OffersId(body) == id <==>
            |id| <= 63 && JsonParse.Parse(body).Some?
            && var v := JsonParse.Parse(body).value;
               && LookUp(v, FieldProcessId()) == Some(String(id))
               && !(TextAt(v, FieldContext()) && LookUp(v, FieldType()) == Some(String(TypeCatalogRequest())))
  {
    hide LookUp, JsonParse.Parse, ProcessId, Common;
    ProcessIdMeans(body, id);
    if JsonParse.Parse(body).Some? {
      CatalogRequestMeans(body, JsonParse.Parse(body).value);
    }
  }

  /** A transfer is started by a transfer request that also names its data set. */
  lemma StartIdMeans(body: text, id: text)
    requires id != []
    ensures StartId(body) == id <==>
            |id| <= 63 && JsonParse.Parse(body).Some?
            && var v := JsonParse.Parse(body).value;
               && TextAt(v, FieldContext())
               && LookUp(v, FieldType()) == Some(String(TypeTransferRequest()))
               && LookUp(v, FieldProcessId()) == Some(String(id)) && TextAt(v, FieldDataset())
  {
    hide LookUp, JsonParse.Parse, ProcessId, Common, TransferRequestFields;
    ProcessIdMeans(body, id);
    if JsonParse.Parse(body).Some? {
      var v := JsonParse.Parse(body).value;
      CommonMeans(body, v, TypeTransferRequest());
      TransferRequestMeans(v);
    }
  }

  /** Parses a body and copies its process id into a buffer that starts empty. */
  method ReadProcessId(body: text) returns (parsed: bool, id: text)
    requires NulFree(body)
    ensures parsed <==> JsonParse.Parse(body).Some?
    ensures id == ProcessId(body)
  {
    hide JsonParse.Parse, LookUp, Represents, NodesOf, FieldProcessId, Clean, NestsWithin;
    var msg, sh := ParseText(Some(body));
    if msg == null {
      return false, [];
    }
    ghost var v := JsonParse.Parse(body).value;
    assert allocated(Nodes(sh));
    var buf := new uchar[PID_LEN](_ => NUL);
    var found := GetString(msg, Some(FieldProcessId()), buf, PID_LEN, sh, v, None);
    if found {
      JsonRoundTrip.ParsedIsClean(body);
      FieldIsClean(v, FieldProcessId());
      TerminatedPrefix(StringField(v, FieldProcessId()).value, buf[..]);
    }
    return true, CStr(buf[..]);
  }

  /** A body of no characters is no message. */
  lemma NothingReceived()
    ensures BodyText([]) == [] && JsonParse.Parse([]) == None && ProcessId([]) == [] && StartId([]) == []
  {
    var s := [] + [NUL];
    assert JsonParse.NonSpace(s, 0) == 1 && JsonParse.SkipSpace(s, 0) == 0;
    assert JsonParse.ValueAt(s, 0, 0) == JsonParse.Failed;
  }

  // ---------------------------------------------------------------------
  // The id in a path
  // ---------------------------------------------------------------------

  const SLASH: uchar := 0x2F

  /** The characters in front of the first slash. */
  function Segment(s: text): (r: text)
    ensures r <= s && SLASH !in r
    ensures |r| < |s| ==> s[|r|] == SLASH
  {
    if s == [] || s[0] == SLASH then [] else [s[0]] + Segment(s[1..])
  }

  /** The segment behind the prefix, truncated to what fits its buffer. */
  function PathId(prefix: text, uri: text): (id: text)
    ensures |id| < PID_LEN && (NulFree(uri) ==> NulFree(id))
  {
    if prefix <= uri then Truncated(Segment(uri[|prefix|..])) else []
  }

  lemma SegmentIs(s: text, n: nat)
    requires n <= |s| && SLASH !in s[..n] && (n < |s| ==> s[n] == SLASH)
    ensures Segment(s) == s[..n]
  {}

  /** Cuts the id out of a request path; `strchr` is the loop. */
  method ExtractId(prefix: text, uri: text) returns (id: text)
    requires NulFree(uri)
    ensures id == PathId(prefix, uri)
  {
    hide Segment, CStr;
    var out := new uchar[PID_LEN](_ => NUL);
    if |uri| < |prefix| || uri[..|prefix|] != prefix {
      return [];
    }
    var start := uri[|prefix|..];
    var len := 0;
    while len < |start| && start[len] != SLASH
      invariant 0 <= len <= |start| && SLASH !in start[..len]
    {
      len := len + 1;
    }
    SegmentIs(start, len);
    if len >= PID_LEN {
      len := PID_LEN - 1;
    }
    CopyOut(start[..len], out);
    TerminatedPrefix(start[..len], out[..]);
    return CStr(out[..]);
  }

  function NegotiationsPrefix(): (t: text) ensures NulFree(t) { Ascii("/negotiations/") }
  function TransfersPrefix(): (t: text) ensures NulFree(t) { Ascii("/transfers/") }

  lemma PathIdMeans(prefix: text, id: text, rest: text)
    requires Lit("/")[0] !in id && (rest == [] || rest[0] == Lit("/")[0])
    ensures PathId(prefix, prefix + id + rest) == if |id| <= 63 then id else id[..63]
  {
    var uri := prefix + id + rest;
    assert prefix <= uri && uri[|prefix|..] == id + rest;
    assert (id + rest)[..|id|] == id;
    SegmentIs(id + rest, |id|);
  }

  /** The ids in the paths of an agreement and of a completion. */
  lemma PathsMean(id: text)
    requires Lit("/")[0] !in id && |id| <= 63
    ensures PathId(NegotiationsPrefix(), Lit("/negotiations/") + id + Lit("/agree")) == id
    ensures PathId(TransfersPrefix(), Lit("/transfers/") + id + Lit("/complete")) == id
    ensures forall uri :: !(Lit("/negotiations/") <= uri) ==> PathId(NegotiationsPrefix(), uri) == []
    ensures forall uri :: !(Lit("/transfers/") <= uri) ==> PathId(TransfersPrefix(), uri) == []
  {
    hide Segment;
    PathIdMeans(NegotiationsPrefix(), id, Lit("/agree"));
    PathIdMeans(TransfersPrefix(), id, Lit("/complete"));
  }

  // ---------------------------------------------------------------------
  // Replies
  // ---------------------------------------------------------------------

  lemma {:induction false} EscapeAtMost(t: text)
    ensures |Escape(t)| <= 6 * |t|
  {
    if t != [] { EscapeAtMost(t[1..]); }
  }

  /** How much an unformatted string member takes, with the comma behind it. */
  function Room(m: Member): nat
    requires m.value.String?
  {
    |Escape(m.key)| + |Escape(m.value.str)| + 6
  }

  function Rooms(ms: seq<Member>): nat
    requires forall i :: 0 <= i < |ms| ==> ms[i].value.String?
  {
    if ms == [] then 0 else Room(ms[0]) + Rooms(ms[1..])
  }

  lemma {:induction false} MembersFit(ms: seq<Member>, depth: nat)
    requires forall i :: 0 <= i < |ms| ==> ms[i].value.String?
    ensures |RenderMembers(ms, false, depth)| <= Rooms(ms)
  {
    hide Escape;
    if ms != [] {
      assert |RenderMember(ms[0], false, depth, |ms| == 1)| <= Room(ms[0]);
      MembersFit(ms[1..], depth);
    }
  }

  lemma ObjectFits(ms: seq<Member>)
    requires forall i :: 0 <= i < |ms| ==> ms[i].value.String?
    ensures |Text(Object(ms))| <= Rooms(ms) + 2
  {
    hide RenderMembers;
    MembersFit(ms, 1);
  }

  lemma KeyRoom(key: text, val: text)
    requires Unescaped(key)
    ensures Room(StringMember(key, val)) <= |key| + 6 * |val| + 6
    ensures Unescaped(val) ==> Room(StringMember(key, val)) == |key| + |val| + 6
  {
    EscapeOfUnescaped(key);
    EscapeAtMost(val);
    if Unescaped(val) { EscapeOfUnescaped(val); }
  }

  lemma StampRoom(kind: text, rest: seq<Member>)
    requires Unescaped(kind) && |kind| <= 40 && forall i :: 0 <= i < |rest| ==> rest[i].value.String?
    ensures forall i :: 0 <= i < |Stamped(kind) + rest| ==> (Stamped(kind) + rest)[i].value.String?
    ensures Rooms(Stamped(kind) + rest) <= 120 + Rooms(rest)
  {
    hide Room, Unescaped;
    var ms := Stamped(kind) + rest;
    assert ms[1..][1..] == rest;
    assert Unescaped(FieldContext()) && Unescaped(FieldType()) && Unescaped(ContextUrl());
    assert |FieldContext()| == 8 && |FieldType()| == 5 && |ContextUrl()| <= 50;
    KeyRoom(FieldContext(), ContextUrl());
    KeyRoom(FieldType(), kind);
    assert Rooms(ms) == Room(ms[0]) + Rooms(ms[1..]) && Rooms(ms[1..]) == Room(ms[1]) + Rooms(ms[1..][1..]);
  }

  /** The reply of a negotiation handler fits its buffer, whatever the id. */
  lemma EventFits(id: text, state: text)
    requires |id| < PID_LEN && Unescaped(state) && |state| <= 20
    ensures Fits(NegotiationEvent(id, state), BUF_SIZE)
  {
    hide Room, Unescaped, Render;
    var rest := [StringMember(FieldProcessId(), id), StringMember(FieldEventType(), state)];
    assert Unescaped(TypeNegotiationEvent()) && |TypeNegotiationEvent()| <= 40;
    StampRoom(TypeNegotiationEvent(), rest);
    assert Unescaped(FieldProcessId()) && Unescaped(FieldEventType());
    assert |FieldProcessId()| == 16 && |FieldEventType()| == 16;
    KeyRoom(FieldProcessId(), id);
    KeyRoom(FieldEventType(), state);
    assert rest[1..] == [rest[1]] && rest[1..][1..] == [];
    assert Rooms(rest) == Room(rest[0]) + Rooms(rest[1..]) && Rooms(rest[1..]) == Room(rest[1]) + Rooms([]);
    ObjectFits(Stamped(TypeNegotiationEvent()) + rest);
  }

  lemma CompletionFits(id: text)
    requires |id| < PID_LEN
    ensures Fits(TransferCompletion(id), BUF_SIZE)
  {
    hide Room, Unescaped, Render;
    var rest := [StringMember(FieldProcessId(), id)];
    assert Unescaped(TypeTransferCompletion()) && |TypeTransferCompletion()| <= 40;
    StampRoom(TypeTransferCompletion(), rest);
    assert Unescaped(FieldProcessId()) && |FieldProcessId()| == 16;
    KeyRoom(FieldProcessId(), id);
    assert rest[1..] == [];
    assert Rooms(rest) == Room(rest[0]) + Rooms([]);
    ObjectFits(Stamped(TypeTransferCompletion()) + rest);
  }
}
