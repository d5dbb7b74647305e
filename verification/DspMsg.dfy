/**
 The message validators (components/dsp_msg/dsp_msg.c), and their composition
 with the builders.
 */
module DspMsg {
  import opened CText
  import opened JsonValue
  import opened JsonList
  import opened JsonTree
  import opened JsonNodes
  import opened JsonEdit
  import opened JsonLd
  import opened DspJson
  import opened DspBuild
  import JsonParse

  datatype MsgErr = MsgOk | NullInput | ParseError | MissingContext | WrongType | MissingField

  // ---------------------------------------------------------------------
  // What is accepted
  // ---------------------------------------------------------------------

  /** A non-empty string stands under the key. */
  predicate HasStringField(obj: Json, key: text) {
    StringField(obj, key).Some? && StringField(obj, key).value != []
  }

  /** An object stands under the key. */
  predicate HasObjectField(obj: Json, key: text) {
    LookUp(obj, key).Some? && LookUp(obj, key).value.Object?
  }

  /** Parseable text with a non-empty string context and exactly the expected type. */
  ghost predicate Common(json: Option<text>, kind: text) {
    && json.Some? && JsonParse.Parse(json.value).Some?
    && var obj := JsonParse.Parse(json.value).value;
       HasStringField(obj, FieldContext()) && LookUp(obj, FieldType()) == Some(String(kind))
  }

  /** The first reason to reject. */
  ghost function Rejection(json: Option<text>, kind: text): MsgErr
    requires !Common(json, kind)
  {
    if json == None then NullInput
    else
      match JsonParse.Parse(json.value)
      case None => ParseError
      case Some(obj) => if !HasStringField(obj, FieldContext()) then MissingContext else WrongType
  }

  /** The fields a message kind demands beyond context and type. */
  ghost predicate OfferFields(obj: Json) {
    HasStringField(obj, FieldProcessId()) && HasObjectField(obj, FieldOffer())
  }

  ghost predicate AgreementFields(obj: Json) {
    HasStringField(obj, FieldProcessId()) && HasObjectField(obj, FieldAgreement())
  }

  ghost predicate TransferRequestFields(obj: Json) {
    HasStringField(obj, FieldProcessId()) && HasStringField(obj, FieldDataset())
  }

  // ---------------------------------------------------------------------
  // What that means, by look-up
  // ---------------------------------------------------------------------

  ghost predicate TextAt(v: Json, key: text) {
    exists s :: s != [] && LookUp(v, key) == Some(String(s))
  }

  ghost predicate ObjectAt(v: Json, key: text) {
    exists ms :: LookUp(v, key) == Some(Object(ms))
  }

  lemma FieldsMean(v: Json, key: text)
    ensures HasStringField(v, key) <==> TextAt(v, key)
    ensures HasObjectField(v, key) <==> ObjectAt(v, key)
  {
    hide LookUp;
    if HasStringField(v, key) { assert LookUp(v, key) == Some(String(StringField(v, key).value)); }
    if HasObjectField(v, key) { assert LookUp(v, key) == Some(Object(LookUp(v, key).value.members)); }
  }

  /** The common checks pass for a non-empty string context and a string type that is exactly the expected one. */
  lemma CommonMeans(json: text, v: Json, kind: text)
    requires JsonParse.Parse(json) == Some(v)
    ensures Common(Some(json), kind) <==>
            (exists c :: c != [] && LookUp(v, Lit("@context")) == Some(String(c)))
            && LookUp(v, Lit("@type")) == Some(String(kind))
  {
    hide LookUp, HasStringField, JsonParse.Parse;
    FieldsMean(v, FieldContext());
  }

  /** Why a message is rejected before its fields are looked at. */
  lemma RejectionMeans(json: text, kind: text)
    ensures Rejection(None, kind) == NullInput
    ensures JsonParse.Parse(json) == None ==> Rejection(Some(json), kind) == ParseError
    ensures JsonParse.Parse(json).Some? && !TextAt(JsonParse.Parse(json).value, Lit("@context")) ==>
              !Common(Some(json), kind) && Rejection(Some(json), kind) == MissingContext
    ensures JsonParse.Parse(json).Some? && TextAt(JsonParse.Parse(json).value, Lit("@context"))
            && LookUp(JsonParse.Parse(json).value, Lit("@type")) != Some(String(kind)) ==>
              !Common(Some(json), kind) && Rejection(Some(json), kind) == WrongType
  {
    hide LookUp, HasStringField, JsonParse.Parse, TextAt;
    if JsonParse.Parse(json).Some? {
      FieldsMean(JsonParse.Parse(json).value, FieldContext());
    }
  }

  /** A catalog request carries nothing but a context and its type. */
  lemma CatalogRequestMeans(json: text, v: Json)
    requires JsonParse.Parse(json) == Some(v)
    ensures TypeCatalogRequest() == Lit("dspace:CatalogRequestMessage")
    ensures Common(Some(json), TypeCatalogRequest()) <==>
            TextAt(v, FieldContext()) && LookUp(v, FieldType()) == Some(String(TypeCatalogRequest()))
  {
    hide LookUp, HasStringField, TextAt, JsonParse.Parse;
    FieldsMean(v, FieldContext());
  }

  /** A transfer request names its process and the data set, both by non-empty strings. */
  lemma TransferRequestMeans(v: Json)
    ensures TypeTransferRequest() == Lit("dspace:TransferRequestMessage")
    ensures TransferRequestFields(v) <==>
            (exists p :: p != [] && LookUp(v, Lit("dspace:processId")) == Some(String(p)))
            && (exists d :: d != [] && LookUp(v, Lit("dspace:dataset")) == Some(String(d)))
  {
    hide LookUp, HasStringField;
    FieldsMean(v, FieldProcessId());
    FieldsMean(v, FieldDataset());
  }

  /** An offer names its process by a non-empty string and holds an object as its offer. */
  lemma OfferMeans(v: Json)
    ensures TypeContractOffer() == Lit("dspace:ContractOfferMessage")
    ensures OfferFields(v) <==>
            (exists p :: p != [] && LookUp(v, Lit("dspace:processId")) == Some(String(p)))
            && (exists ms :: LookUp(v, Lit("dspace:offer")) == Some(Object(ms)))
  {
    hide LookUp, HasStringField, HasObjectField;
    FieldsMean(v, FieldProcessId());
    FieldsMean(v, FieldOffer());
  }

  lemma AgreementMeans(v: Json)
    ensures TypeContractAgreement() == Lit("dspace:ContractAgreementMessage")
    ensures AgreementFields(v) <==>
            (exists p :: p != [] && LookUp(v, Lit("dspace:processId")) == Some(String(p)))
            && (exists ms :: LookUp(v, Lit("dspace:agreement")) == Some(Object(ms)))
  {
    hide LookUp, HasStringField, HasObjectField;
    FieldsMean(v, FieldProcessId());
    FieldsMean(v, FieldAgreement());
  }

  // ---------------------------------------------------------------------
  // The code
  // ---------------------------------------------------------------------

  /** cJSON_IsString of the look-up, and the string if it is one. */
  method StringOf(obj: Node, key: text, ghost sh: Shape, ghost v: Json) returns (s: Option<text>)
    requires sh.node == obj && Represents(sh, v, None)
    ensures s == StringField(v, key)
  {
    hide LookUp, Represents, NodesOf, FirstKey;
    var item, k := GetMember(obj, Some(key), sh, v, None);
    if item == null {
      return None;
    }
    PayloadHeld(sh.kids[k], LookUp(v, key).value, Some(key));
    return if item.payload.kind == StringKind then Some(item.payload.str) else None;
  }

  method CheckStringField(obj: Node, key: text, ghost sh: Shape, ghost v: Json) returns (r: bool)
    requires sh.node == obj && Represents(sh, v, None)
    ensures r == HasStringField(v, key)
  {
    var s := StringOf(obj, key, sh, v);
    return s.Some? && s.value != [];
  }

  method CheckObjectField(obj: Node, key: text, ghost sh: Shape, ghost v: Json) returns (r: bool)
    requires sh.node == obj && Represents(sh, v, None)
    ensures r == HasObjectField(v, key)
  {
    hide LookUp, Represents, NodesOf, FirstKey;
    var item, k := GetMember(obj, Some(key), sh, v, None);
    if item == null {
      return false;
    }
    PayloadHeld(sh.kids[k], LookUp(v, key).value, Some(key));
    return item.payload.kind == ObjectKind;
  }

  /** The common checks; the context is first read into a buffer that is too small for any real one. */
  method CheckCommon(json: Option<text>, kind: text) returns (r: MsgErr, obj: Node?, ghost sh: Shape)
    requires json.Some? ==> NulFree(json.value)
    ensures r == if Common(json, kind) then MsgOk else Rejection(json, kind)
    ensures obj != null <==> r == MsgOk
    ensures r == MsgOk ==> sh.node == obj && Represents(sh, JsonParse.Parse(json.value).value, None)
  {
    hide JsonParse.Parse, LookUp, FieldContext, FieldType, Represents, NodesOf;
    var tree;
    tree, sh := ParseText(json);
    if json == None {
      return NullInput, null, sh;
    }
    if tree == null {
      return ParseError, null, sh;
    }
    ghost var v := JsonParse.Parse(json.value).value;
    var buffer := new uchar[8];
    var short := GetString(tree, Some(FieldContext()), buffer, 8, sh, v, None);
    assert allocated(Nodes(sh));
    var context := StringOf(tree, FieldContext(), sh, v);
    if !short && context == None {
      return MissingContext, null, sh;
    }
    if context == None || context.value == [] {
      return MissingContext, null, sh;
    }
    var kindItem := StringOf(tree, FieldType(), sh, v);
    if kindItem == None || kindItem.value != kind {
      return WrongType, null, sh;
    }
    return MsgOk, tree, sh;
  }

  method ValidateCatalogRequest(json: Option<text>) returns (r: MsgErr)
    requires json.Some? ==> NulFree(json.value)
    ensures r == MsgOk <==> Common(json, TypeCatalogRequest())
    ensures !Common(json, TypeCatalogRequest()) ==> r == Rejection(json, TypeCatalogRequest())
  {
    hide Common, Rejection;
    var obj;
    ghost var sh;
    r, obj, sh := CheckCommon(json, TypeCatalogRequest());
    RejectionIsError(json, TypeCatalogRequest());
  }

  method ValidateOffer(json: Option<text>) returns (r: MsgErr)
    requires json.Some? ==> NulFree(json.value)
    ensures r == MsgOk <==> Common(json, TypeContractOffer()) && OfferFields(JsonParse.Parse(json.value).value)
    ensures r == MissingField <==> Common(json, TypeContractOffer()) && !OfferFields(JsonParse.Parse(json.value).value)
    ensures !Common(json, TypeContractOffer()) ==> r == Rejection(json, TypeContractOffer())
    ensures r == MsgOk <==>
            json.Some? && JsonParse.Parse(json.value).Some?
            && var v := JsonParse.Parse(json.value).value;
               && TextAt(v, FieldContext()) && LookUp(v, FieldType()) == Some(String(TypeContractOffer()))
               && TextAt(v, FieldProcessId()) && ObjectAt(v, FieldOffer())
  {
    hide Rejection, LookUp, JsonParse.Parse, Represents, NodesOf, HasStringField, HasObjectField, Common;
    hide TypeContractOffer, FieldProcessId, FieldOffer;
    hide TextAt, ObjectAt;
    RejectionIsError(json, TypeContractOffer());
    ChecksMean(json, TypeContractOffer(), FieldProcessId(), FieldOffer());
    var obj;
    ghost var sh;
    r, obj, sh := CheckCommon(json, TypeContractOffer());
    if r != MsgOk {
      return;
    }
    CommonParses(json, TypeContractOffer());
    ghost var v := JsonParse.Parse(json.value).value;
    assert allocated(Nodes(sh));
    var present := CheckStringField(obj, FieldProcessId(), sh, v);
    if present {
      present := CheckObjectField(obj, FieldOffer(), sh, v);
    }
    if !present {
      return MissingField;
    }
    return MsgOk;
  }

  method ValidateAgreement(json: Option<text>) returns (r: MsgErr)
    requires json.Some? ==> NulFree(json.value)
    ensures r == MsgOk <==> Common(json, TypeContractAgreement()) && AgreementFields(JsonParse.Parse(json.value).value)
    ensures r == MissingField <==>
            Common(json, TypeContractAgreement()) && !AgreementFields(JsonParse.Parse(json.value).value)
    ensures !Common(json, TypeContractAgreement()) ==> r == Rejection(json, TypeContractAgreement())
    ensures r == MsgOk <==>
            json.Some? && JsonParse.Parse(json.value).Some?
            && var v := JsonParse.Parse(json.value).value;
               && TextAt(v, FieldContext()) && LookUp(v, FieldType()) == Some(String(TypeContractAgreement()))
               && TextAt(v, FieldProcessId()) && ObjectAt(v, FieldAgreement())
  {
    hide Rejection, LookUp, JsonParse.Parse, Represents, NodesOf, HasStringField, HasObjectField, Common;
    hide TypeContractAgreement, FieldProcessId, FieldAgreement;
    hide TextAt, ObjectAt;
    RejectionIsError(json, TypeContractAgreement());
    ChecksMean(json, TypeContractAgreement(), FieldProcessId(), FieldAgreement());
    var obj;
    ghost var sh;
    r, obj, sh := CheckCommon(json, TypeContractAgreement());
    if r != MsgOk {
      return;
    }
    CommonParses(json, TypeContractAgreement());
    ghost var v := JsonParse.Parse(json.value).value;
    assert allocated(Nodes(sh));
    var present := CheckStringField(obj, FieldProcessId(), sh, v);
    if present {
      present := CheckObjectField(obj, FieldAgreement(), sh, v);
    }
    if !present {
      return MissingField;
    }
    return MsgOk;
  }

  method ValidateTransferRequest(json: Option<text>) returns (r: MsgErr)
    requires json.Some? ==> NulFree(json.value)
    ensures r == MsgOk <==>
            Common(json, TypeTransferRequest()) && TransferRequestFields(JsonParse.Parse(json.value).value)
    ensures r == MissingField <==>
            Common(json, TypeTransferRequest()) && !TransferRequestFields(JsonParse.Parse(json.value).value)
    ensures !Common(json, TypeTransferRequest()) ==> r == Rejection(json, TypeTransferRequest())
    ensures r == MsgOk <==>
            json.Some? && JsonParse.Parse(json.value).Some?
            && var v := JsonParse.Parse(json.value).value;
               && TextAt(v, FieldContext()) && LookUp(v, FieldType()) == Some(String(TypeTransferRequest()))
               && TextAt(v, FieldProcessId()) && TextAt(v, FieldDataset())
  {
    hide Rejection, LookUp, JsonParse.Parse, Represents, NodesOf, HasStringField, HasObjectField, Common;
    hide TypeTransferRequest, FieldProcessId, FieldDataset;
    hide TextAt, ObjectAt;
    RejectionIsError(json, TypeTransferRequest());
    ChecksMean(json, TypeTransferRequest(), FieldProcessId(), FieldDataset());
    var obj;
    ghost var sh;
    r, obj, sh := CheckCommon(json, TypeTransferRequest());
    if r != MsgOk {
      return;
    }
    CommonParses(json, TypeTransferRequest());
    ghost var v := JsonParse.Parse(json.value).value;
    assert allocated(Nodes(sh));
    var present := CheckStringField(obj, FieldProcessId(), sh, v);
    if present {
      present := CheckStringField(obj, FieldDataset(), sh, v);
    }
    if !present {
      return MissingField;
    }
    return MsgOk;
  }

  /** Both checks of a message, by look-up. */
  lemma ChecksMean(json: Option<text>, kind: text, first: text, second: text)
    ensures Common(json, kind) <==>
            json.Some? && JsonParse.Parse(json.value).Some?
            && var v := JsonParse.Parse(json.value).value;
               TextAt(v, FieldContext()) && LookUp(v, FieldType()) == Some(String(kind))
    ensures json.Some? && JsonParse.Parse(json.value).Some? ==>
              var v := JsonParse.Parse(json.value).value;
              && (HasStringField(v, first) <==> TextAt(v, first))
              && (HasStringField(v, second) <==> TextAt(v, second))
              && (HasObjectField(v, second) <==> ObjectAt(v, second))
  {
    hide LookUp, HasStringField, HasObjectField, TextAt, ObjectAt, JsonParse.Parse, FieldContext, FieldType;
    if json.Some? && JsonParse.Parse(json.value).Some? {
      var v := JsonParse.Parse(json.value).value;
      FieldsMean(v, FieldContext());
      FieldsMean(v, first);
      FieldsMean(v, second);
    }
  }

  lemma CommonParses(json: Option<text>, kind: text)
    requires Common(json, kind)
    ensures json.Some? && JsonParse.Parse(json.value).Some?
  {}

  lemma RejectionIsError(json: Option<text>, kind: text)
    ensures !Common(json, kind) ==> Rejection(json, kind) != MsgOk && Rejection(json, kind) != MissingField
  {
    hide LookUp, JsonParse.Parse, FieldContext, FieldType;
  }

  // ---------------------------------------------------------------------
  // Build, then validate
  // ---------------------------------------------------------------------

  /** Every built message carries a context and its own type, whatever else it holds. */
  lemma MessageIsStamped(kind: text, rest: seq<Member>)
    ensures HasStringField(Message(kind, rest), FieldContext())
    ensures LookUp(Message(kind, rest), FieldType()) == Some(String(kind))
  {
    hide FieldContext, FieldType, LookUp;
    StampLooksUp(kind, rest);
  }

  /** The text of a built agreement is accepted exactly when the process id is not empty. */
  lemma BuiltAgreementIsValid(out: array<uchar>, processId: text, agreementId: text)
    requires Delivered(out, AgreementMessage(processId, agreementId))
    ensures var json := Some(CStr(out[..]));
            && Common(json, TypeContractAgreement())
            && (AgreementFields(JsonParse.Parse(json.value).value) <==> processId != [])
  {
    hide LookUp, FieldContext, FieldType, FieldProcessId, FieldAgreement, TypeContractAgreement, Text, CStr,
         JsonParse.Parse;
    var message := AgreementMessage(processId, agreementId);
    MessageIsStamped(TypeContractAgreement(), message.members[2..]);
    assert message == Message(TypeContractAgreement(), message.members[2..]);
    AgreementLooksUp(processId, agreementId);
  }

  /** Builds an agreement and validates what was built. */
  method BuildAndValidateAgreement(out: array<uchar>, cap: nat, processId: text, agreementId: text)
    returns (built: BuildErr, valid: bool)
    requires cap <= out.Length && NulFree(processId) && NulFree(agreementId)
    modifies out
    ensures built == if Fits(AgreementMessage(processId, agreementId), cap) then Ok else BufTooSmall
    ensures valid <==> built == Ok && processId != []
  {
    hide Fits, Common, AgreementFields, AgreementMessage, Delivered;
    built := BuildAgreementMsg(out, cap, Some(processId), Some(agreementId));
    if built != Ok {
      return built, false;
    }
    BuiltAgreementIsValid(out, processId, agreementId);
    var r := ValidateAgreement(Some(CStr(out[..])));
    return built, r == MsgOk;
  }
}
