/**
 The six message builders (components/dsp_build/dsp_build.c). Each is proved
 against the message it is meant to produce: what ends up in the caller's
 buffer is a C string that parses to exactly that tree.
 */
module DspBuild {
  import opened CText
  import opened JsonValue
  import opened JsonList
  import opened JsonTree
  import opened JsonNodes
  import opened JsonEdit
  import opened JsonLd
  import opened DspJson
  import JsonParse
  import JsonRoundTrip

  datatype BuildErr = Ok | NullArg | BufTooSmall

  // ---------------------------------------------------------------------
  // The messages
  // ---------------------------------------------------------------------

  function StringMember(key: text, val: text): Member {
    Member(key, String(val))
  }

  /** The two mandatory members. */
  function Stamped(kind: text): seq<Member> {
    [StringMember(FieldContext(), ContextUrl()), StringMember(FieldType(), kind)]
  }

  /** The mandatory members, then the others. */
  function Message(kind: text, rest: seq<Member>): Json {
    Object(Stamped(kind) + rest)
  }

  /** The members of a nested object with a type and an id. */
  function Typed(kind: text, id: text): seq<Member> {
    [StringMember(FieldType(), kind), StringMember(FieldId(), id)]
  }

  function CatalogMessage(datasetId: text, title: text): Json {
    var dataset := Object(Typed(TypeDataset(), datasetId));
    Message(TypeCatalog(), [StringMember(FieldTitle(), title), Member(FieldCatalogDataset(), Array([dataset]))])
  }

  function AgreementMessage(processId: text, agreementId: text): Json {
    var agreement := Object(Typed(TypeAgreement(), agreementId));
    Message(TypeContractAgreement(), [StringMember(FieldProcessId(), processId), Member(FieldAgreement(), agreement)])
  }

  function NegotiationEvent(processId: text, state: text): Json {
    Message(TypeNegotiationEvent(), [StringMember(FieldProcessId(), processId), StringMember(FieldEventType(), state)])
  }

  function TransferStart(processId: text, endpointUrl: text): Json {
    var address := Object([StringMember(FieldEndpointUrl(), endpointUrl)]);
    Message(TypeTransferStart(), [StringMember(FieldProcessId(), processId), Member(FieldDataAddress(), address)])
  }

  function TransferCompletion(processId: text): Json {
    Message(TypeTransferCompletion(), [StringMember(FieldProcessId(), processId)])
  }

  function ErrorMessage(code: text, reason: text): Json {
    Message(TypeError(), [StringMember(FieldCode(), code), StringMember(FieldReason(), reason)])
  }

  // ---------------------------------------------------------------------
  // What stands under which name
  // ---------------------------------------------------------------------

  /** The string under a key of an object under a key. */
  function Nested(m: Json, outer: text, inner: text): Option<Json> {
    match LookUp(m, outer)
    case None => None
    case Some(v) => LookUp(v, inner)
  }

  lemma StampLooksUp(kind: text, rest: seq<Member>)
    ensures LookUp(Message(kind, rest), FieldContext()) == Some(String(ContextUrl()))
    ensures LookUp(Message(kind, rest), FieldType()) == Some(String(kind))
  {
    hide FieldContext, FieldType, ContextUrl, FirstKey;
    NamesDiffer();
    var ms := Message(kind, rest).members;
    assert ms[0] == StringMember(FieldContext(), ContextUrl()) && ms[1] == StringMember(FieldType(), kind);
    FirstKeyIs(ms, FieldContext(), 0);
    FirstKeyIs(ms, FieldType(), 1);
  }

  /** The members behind the mandatory ones are found under their names. */
  lemma RestLooksUp(kind: text, first: Member, second: Member)
    requires first.key != FieldContext() && first.key != FieldType()
    requires second.key != FieldContext() && second.key != FieldType() && second.key != first.key
    ensures LookUp(Message(kind, [first, second]), first.key) == Some(first.value)
    ensures LookUp(Message(kind, [first, second]), second.key) == Some(second.value)
  {
    hide FieldContext, FieldType, ContextUrl, FirstKey;
    var ms := Message(kind, [first, second]).members;
    assert ms[0].key == FieldContext() && ms[1].key == FieldType() && ms[2] == first && ms[3] == second;
    FirstKeyIs(ms, first.key, 2);
    FirstKeyIs(ms, second.key, 3);
  }

  lemma OneLooksUp(kind: text, only: Member)
    requires only.key != FieldContext() && only.key != FieldType()
    ensures LookUp(Message(kind, [only]), only.key) == Some(only.value)
  {
    hide FieldContext, FieldType, ContextUrl, FirstKey;
    var ms := Message(kind, [only]).members;
    assert ms[0].key == FieldContext() && ms[1].key == FieldType() && ms[2] == only;
    FirstKeyIs(ms, only.key, 2);
  }

  lemma TypedLooksUp(kind: text, id: text)
    ensures LookUp(Object(Typed(kind, id)), FieldType()) == Some(String(kind))
    ensures LookUp(Object(Typed(kind, id)), FieldId()) == Some(String(id))
  {
    hide FieldType, FieldId, FirstKey;
    NamesDiffer();
    FirstKeyIs(Typed(kind, id), FieldType(), 0);
    FirstKeyIs(Typed(kind, id), FieldId(), 1);
  }

  lemma CatalogLooksUp(datasetId: text, title: text)
    ensures var m := CatalogMessage(datasetId, title);
            && LookUp(m, FieldContext()) == Some(String(ContextUrl()))
            && LookUp(m, FieldType()) == Some(String(TypeCatalog()))
            && LookUp(m, FieldTitle()) == Some(String(title))
            && LookUp(m, FieldCatalogDataset()).Some? && LookUp(m, FieldCatalogDataset()).value.Array?
            && var items := LookUp(m, FieldCatalogDataset()).value.items;
               && |items| == 1 && LookUp(items[0], FieldType()) == Some(String(TypeDataset()))
               && LookUp(items[0], FieldId()) == Some(String(datasetId))
  {
    hide FieldContext, FieldType, FieldId, FieldTitle, FieldCatalogDataset, ContextUrl, TypeCatalog, TypeDataset;
    hide LookUp;
    NamesDiffer();
    var dataset := Object(Typed(TypeDataset(), datasetId));
    var rest := [StringMember(FieldTitle(), title), Member(FieldCatalogDataset(), Array([dataset]))];
    StampLooksUp(TypeCatalog(), rest);
    RestLooksUp(TypeCatalog(), rest[0], rest[1]);
    TypedLooksUp(TypeDataset(), datasetId);
  }

  lemma AgreementLooksUp(processId: text, agreementId: text)
    ensures var m := AgreementMessage(processId, agreementId);
            && LookUp(m, FieldContext()) == Some(String(ContextUrl()))
            && LookUp(m, FieldType()) == Some(String(TypeContractAgreement()))
            && LookUp(m, FieldProcessId()) == Some(String(processId))
            && LookUp(m, FieldAgreement()).Some? && LookUp(m, FieldAgreement()).value.Object?
            && Nested(m, FieldAgreement(), FieldType()) == Some(String(TypeAgreement()))
            && Nested(m, FieldAgreement(), FieldId()) == Some(String(agreementId))
  {
    hide FieldContext, FieldType, FieldId, FieldProcessId, FieldAgreement, ContextUrl, TypeAgreement,
         TypeContractAgreement, LookUp;
    NamesDiffer();
    var agreement := Object(Typed(TypeAgreement(), agreementId));
    var rest := [StringMember(FieldProcessId(), processId), Member(FieldAgreement(), agreement)];
    StampLooksUp(TypeContractAgreement(), rest);
    RestLooksUp(TypeContractAgreement(), rest[0], rest[1]);
    TypedLooksUp(TypeAgreement(), agreementId);
  }

  lemma EventLooksUp(processId: text, state: text)
    ensures var m := NegotiationEvent(processId, state);
            && LookUp(m, FieldContext()) == Some(String(ContextUrl()))
            && LookUp(m, FieldType()) == Some(String(TypeNegotiationEvent()))
            && LookUp(m, FieldProcessId()) == Some(String(processId))
            && LookUp(m, FieldEventType()) == Some(String(state))
  {
    hide FieldContext, FieldType, FieldProcessId, FieldEventType, ContextUrl, TypeNegotiationEvent, LookUp;
    NamesDiffer();
    var rest := [StringMember(FieldProcessId(), processId), StringMember(FieldEventType(), state)];
    StampLooksUp(TypeNegotiationEvent(), rest);
    RestLooksUp(TypeNegotiationEvent(), rest[0], rest[1]);
  }

  lemma TransferStartLooksUp(processId: text, endpointUrl: text)
    ensures var m := TransferStart(processId, endpointUrl);
            && LookUp(m, FieldContext()) == Some(String(ContextUrl()))
            && LookUp(m, FieldType()) == Some(String(TypeTransferStart()))
            && LookUp(m, FieldProcessId()) == Some(String(processId))
            && Nested(m, FieldDataAddress(), FieldEndpointUrl()) == Some(String(endpointUrl))
  {
    hide FieldContext, FieldType, FieldProcessId, FieldDataAddress, FieldEndpointUrl, ContextUrl, TypeTransferStart;
    hide FirstKey;
    NamesDiffer();
    var parts := [StringMember(FieldEndpointUrl(), endpointUrl)];
    var rest := [StringMember(FieldProcessId(), processId), Member(FieldDataAddress(), Object(parts))];
    StampLooksUp(TypeTransferStart(), rest);
    RestLooksUp(TypeTransferStart(), rest[0], rest[1]);
    FirstKeyIs(parts, FieldEndpointUrl(), 0);
  }

  lemma CompletionLooksUp(processId: text)
    ensures var m := TransferCompletion(processId);
            && LookUp(m, FieldContext()) == Some(String(ContextUrl()))
            && LookUp(m, FieldType()) == Some(String(TypeTransferCompletion()))
            && LookUp(m, FieldProcessId()) == Some(String(processId))
  {
    hide FieldContext, FieldType, FieldProcessId, ContextUrl, TypeTransferCompletion, LookUp;
    NamesDiffer();
    StampLooksUp(TypeTransferCompletion(), [StringMember(FieldProcessId(), processId)]);
    OneLooksUp(TypeTransferCompletion(), StringMember(FieldProcessId(), processId));
  }

  lemma ErrorLooksUp(code: text, reason: text)
    ensures var m := ErrorMessage(code, reason);
            && LookUp(m, FieldContext()) == Some(String(ContextUrl()))
            && LookUp(m, FieldType()) == Some(String(TypeError()))
            && LookUp(m, FieldCode()) == Some(String(code)) && LookUp(m, FieldReason()) == Some(String(reason))
  {
    hide FieldContext, FieldType, FieldCode, FieldReason, ContextUrl, TypeError, LookUp;
    NamesDiffer();
    var rest := [StringMember(FieldCode(), code), StringMember(FieldReason(), reason)];
    StampLooksUp(TypeError(), rest);
    RestLooksUp(TypeError(), rest[0], rest[1]);
  }

  /** A tree the printer and parser agree on. */
  ghost predicate Sound(t: Json) {
    Plain(t) && NestsWithin(t, JsonParse.NESTING_LIMIT)
  }

  ghost predicate SoundMembers(ms: seq<Member>) {
    forall i :: 0 <= i < |ms| ==> NulFree(ms[i].key) && Plain(ms[i].value) && NestsWithin(ms[i].value, 2)
  }

  lemma {:induction false} MoreRoom(t: Json, limit: int)
    requires NestsWithin(t, 2) && limit >= 2
    ensures NestsWithin(t, limit)
  {
    match t
    case Array(items) =>
      forall i | 0 <= i < |items| ensures NestsWithin(items[i], limit - 1) {
        StillMoreRoom(items[i], limit - 1);
      }
    case Object(ms) =>
      forall i | 0 <= i < |ms| ensures NestsWithin(ms[i].value, limit - 1) {
        StillMoreRoom(ms[i].value, limit - 1);
      }
    case _ =>
  }

  lemma StillMoreRoom(t: Json, limit: int)
    requires NestsWithin(t, 1) && limit >= 1
    ensures NestsWithin(t, limit)
  {
    match t
    case Array(items) =>
      forall i | 0 <= i < |items| ensures NestsWithin(items[i], limit - 1) {
        assert !items[i].Array? && !items[i].Object?;
      }
    case Object(ms) =>
      forall i | 0 <= i < |ms| ensures NestsWithin(ms[i].value, limit - 1) {
        assert !ms[i].value.Array? && !ms[i].value.Object?;
      }
    case _ =>
  }

  lemma MembersSound(ms: seq<Member>)
    requires SoundMembers(ms)
    ensures Sound(Object(ms))
  {
    forall i | 0 <= i < |ms| ensures NestsWithin(ms[i].value, JsonParse.NESTING_LIMIT - 1) {
      MoreRoom(ms[i].value, JsonParse.NESTING_LIMIT - 1);
    }
  }

  /** An object of strings only. */
  lemma FlatSound(ms: seq<Member>)
    requires forall i :: 0 <= i < |ms| ==> NulFree(ms[i].key) && ms[i].value.String? && NulFree(ms[i].value.str)
    ensures Plain(Object(ms)) && NestsWithin(Object(ms), 1) && NestsWithin(Object(ms), 2)
  {}

  lemma OneInArray(t: Json)
    requires Plain(t) && NestsWithin(t, 1)
    ensures Plain(Array([t])) && NestsWithin(Array([t]), 2)
  {}

  // ---------------------------------------------------------------------
  // Shared steps
  // ---------------------------------------------------------------------

  /** The buffer holds the text of the tree as a C string, and that text parses back to the tree. */
  ghost predicate Delivered(out: array<uchar>, t: Json)
    reads out
  {
    && |Text(t)| < out.Length && out[..|Text(t)|] == Text(t) && out[|Text(t)|] == NUL
    && CStr(out[..]) == Text(t)
    && JsonParse.Parse(CStr(out[..])) == Some(t)
  }

  lemma AppendsString(ms: seq<Member>, key: text, val: text)
    requires forall i :: 0 <= i < |ms| ==> ms[i].key != key
    ensures Put(ms, key, val) == ms + [StringMember(key, val)]
  {
    NothingToDelete(ms, key);
  }

  /** An object under construction, of members that survive printing and parsing. */
  ghost predicate Building(obj: Node, sh: Shape, ms: seq<Member>)
    reads Nodes(sh)
  {
    sh.node == obj && Represents(sh, Object(ms), None) && SoundMembers(ms)
  }

  /** A finished tree that can be hung into another. */
  ghost predicate Loose(item: Node, x: Shape, v: Json)
    reads Nodes(x)
  {
    x.node == item && Represents(x, v, None) && item.next == null
  }

  lemma BuiltIsLoose(obj: Node, sh: Shape, ms: seq<Member>)
    requires Building(obj, sh, ms) && obj.next == null
    ensures Loose(obj, sh, Object(ms))
  {}

  lemma SoundGrows(ms: seq<Member>, m: Member)
    requires SoundMembers(ms) && NulFree(m.key) && Plain(m.value) && NestsWithin(m.value, 2)
    ensures SoundMembers(ms + [m])
  {
    hide NulFree, Plain, NestsWithin;
  }

  lemma StringIsSound(val: text)
    requires NulFree(val)
    ensures Plain(String(val)) && NestsWithin(String(val), 2)
  {}

  method NewObject() returns (obj: Node, ghost sh: Shape)
    ensures fresh(obj) && obj.next == null && sh.node == obj && NodesOf(sh.kids) == {} && allocated(Nodes(sh))
    ensures Building(obj, sh, [])
  {
    hide Represents, NodesOf;
    NoNodes();
    obj, sh := CreateObject();
  }

  lemma NoNodes()
    ensures NodesOf([]) == {}
  {}

  /** A new array that holds one finished tree. */
  method NewArrayOf(item: Node, ghost x: Shape, ghost v: Json) returns (arr: Node, ghost sh: Shape)
    requires Loose(item, x, v)
    modifies item`next, item`prev
    ensures fresh(arr) && sh.node == arr && NodesOf(sh.kids) == Nodes(x) && allocated(Nodes(sh))
    ensures Loose(arr, sh, Array([v]))
  {
    hide Represents, NodesOf, Heads;
    NoNodes();
    HeadsInside([]);
    assert allocated(NodesOf(x.kids));
    arr, sh := CreateArray();
    assert [] + [v] == [v];
    sh := AddToArray(arr, item, sh, [], x, v);
  }

  /** Adds a string under a key that the object does not have yet. */
  method AddNew(obj: Node, key: text, val: text, ghost sh: Shape, ghost ms: seq<Member>) returns (ghost after: Shape)
    requires Building(obj, sh, ms) && NulFree(key) && NulFree(val)
    requires forall i :: 0 <= i < |ms| ==> ms[i].key != key
    modifies obj`child, NodesOf(sh.kids)`next, NodesOf(sh.kids)`prev
    ensures Building(obj, after, ms + [StringMember(key, val)])
    ensures after.node == obj && allocated(Nodes(after))
    ensures forall n :: n in NodesOf(after.kids) ==> n in NodesOf(sh.kids) || fresh(n)
  {
    hide Represents, NodesOf, Put, SoundMembers, Plain, NestsWithin, NulFree;
    AppendsString(ms, key, val);
    StringIsSound(val);
    SoundGrows(ms, StringMember(key, val));
    var ok;
    ok, after := AddString(obj, Some(key), Some(val), sh, ms, None);
  }

  /** Adds a nested tree. */
  method AddTree(obj: Node, key: text, item: Node, ghost sh: Shape, ghost ms: seq<Member>, ghost x: Shape,
                 ghost v: Json)
    returns (ghost after: Shape)
    requires Building(obj, sh, ms) && NulFree(key) && Plain(v) && NestsWithin(v, 2)
    requires Loose(item, x, v) && Nodes(x) !! Nodes(sh)
    modifies obj`child, NodesOf(sh.kids)`next, NodesOf(sh.kids)`prev, item`payload, item`next, item`prev
    ensures Building(obj, after, ms + [Member(key, v)])
  {
    hide Represents, NodesOf, Heads, SoundMembers, Plain, NestsWithin, NulFree;
    HeadsInside(sh.kids);
    SoundGrows(ms, Member(key, v));
    var ok;
    ok, after := AddItemToObject(obj, Some(key), item, sh, ms, None, x, v, None);
  }

  /** The nested object of a dataset or an agreement: its type, then its id. */
  method NewTyped(kind: text, id: text) returns (obj: Node, ghost sh: Shape)
    requires NulFree(kind) && NulFree(id)
    ensures fresh(Nodes(sh)) && allocated(Nodes(sh)) && sh.node == obj
    ensures Loose(obj, sh, Object(Typed(kind, id)))
  {
    hide FieldType, FieldId, Building, Loose, NodesOf, NulFree;
    NamesDiffer();
    obj, sh := NewObject();
    sh := AddNew(obj, FieldType(), kind, sh, []);
    assert [] + [StringMember(FieldType(), kind)] == [StringMember(FieldType(), kind)];
    sh := AddNew(obj, FieldId(), id, sh, [StringMember(FieldType(), kind)]);
    assert [StringMember(FieldType(), kind)] + [StringMember(FieldId(), id)] == Typed(kind, id);
    BuiltIsLoose(obj, sh, Typed(kind, id));
  }

  method StampCommon(obj: Node, kind: text, ghost sh: Shape) returns (ghost after: Shape)
    requires Building(obj, sh, []) && NulFree(kind)
    modifies obj`child, NodesOf(sh.kids)`next, NodesOf(sh.kids)`prev
    ensures Building(obj, after, Stamped(kind))
    ensures after.node == obj && allocated(Nodes(after))
    ensures forall n :: n in NodesOf(after.kids) ==> n in NodesOf(sh.kids) || fresh(n)
  {
    hide FieldContext, FieldType, ContextUrl, Building, NodesOf, NulFree;
    NamesDiffer();
    ghost var first := StringMember(FieldContext(), ContextUrl());
    after := AddNew(obj, FieldContext(), ContextUrl(), sh, []);
    assert [] + [first] == [first];
    after := AddNew(obj, FieldType(), kind, after, [first]);
    assert [first] + [StringMember(FieldType(), kind)] == Stamped(kind);
  }

  /** The tree that the C string in the buffer parses to. */
  ghost function Parsed(out: array<uchar>): Json
    reads out
  {
    match JsonParse.Parse(CStr(out[..]))
    case Some(t) => t
    case None => Null
  }

  /** Serialises the object into the caller's buffer. */
  method Finalise(obj: Node, out: array<uchar>, cap: nat, ghost sh: Shape, ghost ms: seq<Member>) returns (r: BuildErr)
    requires Building(obj, sh, ms) && cap <= out.Length
    modifies out
    ensures r == if Fits(Object(ms), cap) then Ok else BufTooSmall
    ensures r == Ok ==> Delivered(out, Object(ms)) && Parsed(out) == Object(ms)
    ensures r == BufTooSmall && cap > 0 ==> out[0] == NUL
  {
    hide Render, Plain, NestsWithin, Sound, SoundMembers, Represents, NodesOf;
    ghost var t := Object(ms);
    MembersSound(ms);
    assert Plain(t) by { SoundIsPlain(t); }
    var ok := PrintText(obj, out, cap, sh, t);
    if !ok {
      return BufTooSmall;
    }
    TextDelivered(t, out[..]);
    return Ok;
  }

  lemma SoundIsPlain(t: Json)
    requires Sound(t)
    ensures Plain(t)
  {}

  lemma TextDelivered(t: Json, buffer: text)
    requires Sound(t)
    requires |Text(t)| < |buffer| && buffer[..|Text(t)|] == Text(t) && buffer[|Text(t)|] == NUL
    ensures CStr(buffer) == Text(t) && JsonParse.Parse(Text(t)) == Some(t)
  {
    hide Render, Plain, NestsWithin, JsonParse.Parse;
    RenderNulFree(t, false, 0);
    TerminatedPrefix(Text(t), buffer);
    ParsesBack(t);
  }

  lemma TerminatedPrefix(s: text, buffer: text)
    requires NulFree(s) && |s| < |buffer| && buffer[..|s|] == s && buffer[|s|] == NUL
    ensures CStr(buffer) == s
  {
    CStrOfTerminated(s, buffer[|s| + 1..]);
    assert buffer == s + [NUL] + buffer[|s| + 1..];
  }

  lemma ParsesBack(t: Json)
    requires Sound(t)
    ensures JsonParse.Parse(Text(t)) == Some(t)
  {
    hide Render, Plain, NestsWithin, JsonParse.TextAt, JsonParse.Parse;
    JsonRoundTrip.TreeRoundTrip(t, false);
  }

  // ---------------------------------------------------------------------
  // The builders
  // ---------------------------------------------------------------------

  method BuildCatalog(out: array?<uchar>, cap: nat, datasetId: Option<text>, title: Option<text>) returns (r: BuildErr)
    requires out != null ==> cap <= out.Length
    requires (datasetId.Some? ==> NulFree(datasetId.value)) && (title.Some? ==> NulFree(title.value))
    modifies Cells(out)
    ensures r == NullArg <==> out == null || datasetId == None || title == None
    ensures r != NullArg ==> (r == Ok <==> Fits(CatalogMessage(datasetId.value, title.value), cap))
    ensures r == Ok ==> Delivered(out, CatalogMessage(datasetId.value, title.value))
    ensures r == Ok ==> LookUp(Parsed(out), FieldType()) == Some(String(TypeCatalog()))
    ensures r == Ok ==> LookUp(Parsed(out), FieldTitle()) == Some(String(title.value))
    ensures r == Ok ==> var d := LookUp(Parsed(out), FieldCatalogDataset());
                        && d.Some? && d.value.Array? && |d.value.items| == 1
                        && LookUp(d.value.items[0], FieldId()) == Some(String(datasetId.value))
    ensures r == BufTooSmall && cap > 0 ==> out[0] == NUL
  {
    hide FieldContext, FieldType, FieldId, FieldTitle, FieldCatalogDataset, ContextUrl, TypeCatalog, TypeDataset;
    hide Fits, Delivered, Building, Loose, NodesOf, Plain, NestsWithin, LookUp, Nested, Parsed;
    if out == null || datasetId == None || title == None {
      return NullArg;
    }
    NamesDiffer();
    var obj, sh := NewObject();
    var ds, dsh := NewTyped(TypeDataset(), datasetId.value);
    ghost var dataset := Object(Typed(TypeDataset(), datasetId.value));
    var arr, ash := NewArrayOf(ds, dsh, dataset);
    assert Nodes(ash) == {arr} + Nodes(dsh) && obj !in Nodes(dsh);
    ghost var ms := Stamped(TypeCatalog());
    sh := StampCommon(obj, TypeCatalog(), sh);
    assert Nodes(ash) !! Nodes(sh);
    sh := AddNew(obj, FieldTitle(), title.value, sh, ms);
    ms := ms + [StringMember(FieldTitle(), title.value)];
    FlatSound(dataset.members);
    OneInArray(dataset);
    sh := AddTree(obj, FieldCatalogDataset(), arr, sh, ms, ash, Array([dataset]));
    ms := ms + [Member(FieldCatalogDataset(), Array([dataset]))];
    assert Object(ms) == CatalogMessage(datasetId.value, title.value);
    CatalogLooksUp(datasetId.value, title.value);
    r := Finalise(obj, out, cap, sh, ms);
  }

  method BuildAgreementMsg(out: array?<uchar>, cap: nat, processId: Option<text>, agreementId: Option<text>)
    returns (r: BuildErr)
    requires out != null ==> cap <= out.Length
    requires (processId.Some? ==> NulFree(processId.value)) && (agreementId.Some? ==> NulFree(agreementId.value))
    modifies Cells(out)
    ensures r == NullArg <==> out == null || processId == None || agreementId == None
    ensures r != NullArg ==> (r == Ok <==> Fits(AgreementMessage(processId.value, agreementId.value), cap))
    ensures r == Ok ==> Delivered(out, AgreementMessage(processId.value, agreementId.value))
    ensures r == Ok ==> LookUp(Parsed(out), FieldType()) == Some(String(TypeContractAgreement()))
    ensures r == Ok ==> LookUp(Parsed(out), FieldProcessId()) == Some(String(processId.value))
    ensures r == Ok ==> Nested(Parsed(out), FieldAgreement(), FieldId()) == Some(String(agreementId.value))
    ensures r == BufTooSmall && cap > 0 ==> out[0] == NUL
  {
    hide FieldContext, FieldType, FieldId, FieldProcessId, FieldAgreement, ContextUrl, TypeAgreement,
         TypeContractAgreement;
    hide Fits, Delivered, Building, Loose, NodesOf, Plain, NestsWithin, LookUp, Nested, Parsed;
    if out == null || processId == None || agreementId == None {
      return NullArg;
    }
    NamesDiffer();
    var obj, sh := NewObject();
    var agreement, ash := NewTyped(TypeAgreement(), agreementId.value);
    ghost var parts := Typed(TypeAgreement(), agreementId.value);
    ghost var ms := Stamped(TypeContractAgreement());
    sh := StampCommon(obj, TypeContractAgreement(), sh);
    sh := AddNew(obj, FieldProcessId(), processId.value, sh, ms);
    ms := ms + [StringMember(FieldProcessId(), processId.value)];
    FlatSound(parts);
    sh := AddTree(obj, FieldAgreement(), agreement, sh, ms, ash, Object(parts));
    ms := ms + [Member(FieldAgreement(), Object(parts))];
    assert Object(ms) == AgreementMessage(processId.value, agreementId.value);
    AgreementLooksUp(processId.value, agreementId.value);
    r := Finalise(obj, out, cap, sh, ms);
  }

  method BuildNegotiationEvent(out: array?<uchar>, cap: nat, processId: Option<text>, state: Option<text>)
    returns (r: BuildErr)
    requires out != null ==> cap <= out.Length
    requires (processId.Some? ==> NulFree(processId.value)) && (state.Some? ==> NulFree(state.value))
    modifies Cells(out)
    ensures r == NullArg <==> out == null || processId == None || state == None
    ensures r != NullArg ==> (r == Ok <==> Fits(NegotiationEvent(processId.value, state.value), cap))
    ensures r == Ok ==> Delivered(out, NegotiationEvent(processId.value, state.value))
    ensures r == Ok ==> LookUp(Parsed(out), FieldType()) == Some(String(TypeNegotiationEvent()))
    ensures r == Ok ==> LookUp(Parsed(out), FieldProcessId()) == Some(String(processId.value))
    ensures r == Ok ==> LookUp(Parsed(out), FieldEventType()) == Some(String(state.value))
    ensures r == BufTooSmall && cap > 0 ==> out[0] == NUL
  {
    hide FieldContext, FieldType, FieldProcessId, FieldEventType, ContextUrl, TypeNegotiationEvent;
    hide Fits, Delivered, Building, Loose, NodesOf, Plain, NestsWithin, LookUp, Nested, Parsed;
    if out == null || processId == None || state == None {
      return NullArg;
    }
    NamesDiffer();
    var obj, sh := NewObject();
    ghost var ms := Stamped(TypeNegotiationEvent());
    sh := StampCommon(obj, TypeNegotiationEvent(), sh);
    sh := AddNew(obj, FieldProcessId(), processId.value, sh, ms);
    ms := ms + [StringMember(FieldProcessId(), processId.value)];
    sh := AddNew(obj, FieldEventType(), state.value, sh, ms);
    ms := ms + [StringMember(FieldEventType(), state.value)];
    assert Object(ms) == NegotiationEvent(processId.value, state.value);
    EventLooksUp(processId.value, state.value);
    r := Finalise(obj, out, cap, sh, ms);
  }

  method BuildTransferStart(out: array?<uchar>, cap: nat, processId: Option<text>, endpointUrl: Option<text>)
    returns (r: BuildErr)
    requires out != null ==> cap <= out.Length
    requires (processId.Some? ==> NulFree(processId.value)) && (endpointUrl.Some? ==> NulFree(endpointUrl.value))
    modifies Cells(out)
    ensures r == NullArg <==> out == null || processId == None || endpointUrl == None
    ensures r != NullArg ==> (r == Ok <==> Fits(TransferStart(processId.value, endpointUrl.value), cap))
    ensures r == Ok ==> Delivered(out, TransferStart(processId.value, endpointUrl.value))
    ensures r == Ok ==> LookUp(Parsed(out), FieldType()) == Some(String(TypeTransferStart()))
    ensures r == Ok ==> LookUp(Parsed(out), FieldProcessId()) == Some(String(processId.value))
    ensures r == Ok ==> Nested(Parsed(out), FieldDataAddress(), FieldEndpointUrl()) == Some(String(endpointUrl.value))
    ensures r == BufTooSmall && cap > 0 ==> out[0] == NUL
  {
    hide FieldContext, FieldType, FieldProcessId, FieldEndpointUrl, FieldDataAddress, ContextUrl, TypeTransferStart;
    hide Fits, Delivered, Building, Loose, NodesOf, Plain, NestsWithin, LookUp, Nested, Parsed;
    if out == null || processId == None || endpointUrl == None {
      return NullArg;
    }
    NamesDiffer();
    var obj, sh := NewObject();
    var addr, ash := NewObject();
    ash := AddNew(addr, FieldEndpointUrl(), endpointUrl.value, ash, []);
    ghost var parts := [StringMember(FieldEndpointUrl(), endpointUrl.value)];
    assert [] + parts == parts;
    BuiltIsLoose(addr, ash, parts);
    ghost var ms := Stamped(TypeTransferStart());
    sh := StampCommon(obj, TypeTransferStart(), sh);
    sh := AddNew(obj, FieldProcessId(), processId.value, sh, ms);
    ms := ms + [StringMember(FieldProcessId(), processId.value)];
    FlatSound(parts);
    sh := AddTree(obj, FieldDataAddress(), addr, sh, ms, ash, Object(parts));
    ms := ms + [Member(FieldDataAddress(), Object(parts))];
    assert Object(ms) == TransferStart(processId.value, endpointUrl.value);
    TransferStartLooksUp(processId.value, endpointUrl.value);
    r := Finalise(obj, out, cap, sh, ms);
  }

  method BuildTransferCompletion(out: array?<uchar>, cap: nat, processId: Option<text>) returns (r: BuildErr)
    requires out != null ==> cap <= out.Length
    requires processId.Some? ==> NulFree(processId.value)
    modifies Cells(out)
    ensures r == NullArg <==> out == null || processId == None
    ensures r != NullArg ==> (r == Ok <==> Fits(TransferCompletion(processId.value), cap))
    ensures r == Ok ==> Delivered(out, TransferCompletion(processId.value))
    ensures r == Ok ==> LookUp(Parsed(out), FieldType()) == Some(String(TypeTransferCompletion()))
    ensures r == Ok ==> LookUp(Parsed(out), FieldProcessId()) == Some(String(processId.value))
    ensures r == BufTooSmall && cap > 0 ==> out[0] == NUL
  {
    hide FieldContext, FieldType, FieldProcessId, ContextUrl, TypeTransferCompletion;
    hide Fits, Delivered, Building, Loose, NodesOf, Plain, NestsWithin, LookUp, Nested, Parsed;
    if out == null || processId == None {
      return NullArg;
    }
    NamesDiffer();
    var obj, sh := NewObject();
    ghost var ms := Stamped(TypeTransferCompletion());
    sh := StampCommon(obj, TypeTransferCompletion(), sh);
    sh := AddNew(obj, FieldProcessId(), processId.value, sh, ms);
    ms := ms + [StringMember(FieldProcessId(), processId.value)];
    assert Object(ms) == TransferCompletion(processId.value);
    CompletionLooksUp(processId.value);
    r := Finalise(obj, out, cap, sh, ms);
  }

  method BuildError(out: array?<uchar>, cap: nat, code: Option<text>, reason: Option<text>) returns (r: BuildErr)
    requires out != null ==> cap <= out.Length
    requires (code.Some? ==> NulFree(code.value)) && (reason.Some? ==> NulFree(reason.value))
    modifies Cells(out)
    ensures r == NullArg <==> out == null || code == None || reason == None
    ensures r != NullArg ==> (r == Ok <==> Fits(ErrorMessage(code.value, reason.value), cap))
    ensures r == Ok ==> Delivered(out, ErrorMessage(code.value, reason.value))
    ensures r == Ok ==> LookUp(Parsed(out), FieldType()) == Some(String(TypeError()))
    ensures r == Ok ==> LookUp(Parsed(out), FieldCode()) == Some(String(code.value))
    ensures r == Ok ==> LookUp(Parsed(out), FieldReason()) == Some(String(reason.value))
    ensures r == BufTooSmall && cap > 0 ==> out[0] == NUL
  {
    hide FieldContext, FieldType, FieldCode, FieldReason, ContextUrl, TypeError;
    hide Fits, Delivered, Building, Loose, NodesOf, Plain, NestsWithin, LookUp, Nested, Parsed;
    if out == null || code == None || reason == None {
      return NullArg;
    }
    NamesDiffer();
    var obj, sh := NewObject();
    ghost var ms := Stamped(TypeError());
    sh := StampCommon(obj, TypeError(), sh);
    sh := AddNew(obj, FieldCode(), code.value, sh, ms);
    ms := ms + [StringMember(FieldCode(), code.value)];
    sh := AddNew(obj, FieldReason(), reason.value, sh, ms);
    ms := ms + [StringMember(FieldReason(), reason.value)];
    assert Object(ms) == ErrorMessage(code.value, reason.value);
    ErrorLooksUp(code.value, reason.value);
    r := Finalise(obj, out, cap, sh, ms);
  }
}
