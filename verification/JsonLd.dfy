/**
 The JSON-LD names used in messages
 (components/dsp_jsonld/include/dsp_jsonld_ctx.h).
 */
module JsonLd {
  import opened CText

  /** Characters that stand for themselves inside quotes. */
  predicate Unescaped(t: text) {
    forall i :: 0 <= i < |t| ==> t[i] > 32 && t[i] != QUOTE && t[i] != BACKSLASH
  }

  function Ascii(s: string): (t: text)
    requires forall i :: 0 <= i < |s| ==> ' ' < s[i] < '\U{80}' && s[i] != '\"' && s[i] != '\\'
    ensures |t| == |s| && NulFree(t) && Unescaped(t)
    ensures forall i :: 0 <= i < |s| ==> t[i] as int == s[i] as int
  {
    Lit(s)
  }

  function ContextUrl(): (t: text)
    ensures NulFree(t) && t != []
  {
    Ascii("https://w3id.org/dspace/2024/1/context.json")
  }

  function FieldContext(): (t: text) ensures NulFree(t) && Unescaped(t) { Ascii("@context") }
  function FieldType(): (t: text) ensures NulFree(t) && Unescaped(t) { Ascii("@type") }
  function FieldId(): (t: text) ensures NulFree(t) && Unescaped(t) { Ascii("@id") }
  function FieldProcessId(): (t: text) ensures NulFree(t) && Unescaped(t) { Ascii("dspace:processId") }
  function FieldCode(): (t: text) ensures NulFree(t) && Unescaped(t) { Ascii("dspace:code") }
  function FieldReason(): (t: text) ensures NulFree(t) && Unescaped(t) { Ascii("dspace:reason") }
  function FieldOffer(): (t: text) ensures NulFree(t) && Unescaped(t) { Ascii("dspace:offer") }
  function FieldAgreement(): (t: text) ensures NulFree(t) && Unescaped(t) { Ascii("dspace:agreement") }
  function FieldDataset(): (t: text) ensures NulFree(t) && Unescaped(t) { Ascii("dspace:dataset") }
  function FieldDataAddress(): (t: text) ensures NulFree(t) && Unescaped(t) { Ascii("dspace:dataAddress") }
  function FieldEventType(): (t: text) ensures NulFree(t) && Unescaped(t) { Ascii("dspace:eventType") }
  function FieldEndpointUrl(): (t: text) ensures NulFree(t) && Unescaped(t) { Ascii("dspace:endpointUrl") }
  function FieldTitle(): (t: text) ensures NulFree(t) && Unescaped(t) { Ascii("dct:title") }
  function FieldCatalogDataset(): (t: text) ensures NulFree(t) && Unescaped(t) { Ascii("dcat:dataset") }

  function TypeCatalogRequest(): (t: text) ensures NulFree(t) { Ascii("dspace:CatalogRequestMessage") }
  function TypeCatalog(): (t: text) ensures NulFree(t) { Ascii("dcat:Catalog") }
  function TypeDataset(): (t: text) ensures NulFree(t) { Ascii("dcat:Dataset") }
  function TypeContractOffer(): (t: text) ensures NulFree(t) { Ascii("dspace:ContractOfferMessage") }
  function TypeContractAgreement(): (t: text) ensures NulFree(t) { Ascii("dspace:ContractAgreementMessage") }
  function TypeAgreement(): (t: text) ensures NulFree(t) { Ascii("odrl:Agreement") }
  function TypeNegotiationEvent(): (t: text) ensures NulFree(t) { Ascii("dspace:ContractNegotiationEventMessage") }
  function TypeTransferRequest(): (t: text) ensures NulFree(t) { Ascii("dspace:TransferRequestMessage") }
  function TypeTransferStart(): (t: text) ensures NulFree(t) { Ascii("dspace:TransferStartMessage") }
  function TypeTransferCompletion(): (t: text) ensures NulFree(t) { Ascii("dspace:TransferCompletionMessage") }
  function TypeError(): (t: text) ensures NulFree(t) { Ascii("dspace:Error") }

  function StateOffered(): (t: text) ensures NulFree(t) { Ascii("dspace:OFFERED") }
  function StateAgreed(): (t: text) ensures NulFree(t) { Ascii("dspace:AGREED") }
  function StateTerminated(): (t: text) ensures NulFree(t) { Ascii("dspace:TERMINATED") }

  lemma StateNames()
    ensures StateOffered() == Lit("dspace:OFFERED") && StateAgreed() == Lit("dspace:AGREED")
    ensures StateTerminated() == Lit("dspace:TERMINATED")
  {}

  /** Field names that occur together differ: by their length, or at one position. */
  lemma NamesDiffer()
    ensures |FieldContext()| == 8 && |FieldType()| == 5 && |FieldId()| == 3 && |FieldProcessId()| == 16
    ensures |FieldCode()| == 11 && |FieldReason()| == 13 && |FieldDataAddress()| == 18
    ensures |FieldEventType()| == 16 && |FieldTitle()| == 9 && |FieldCatalogDataset()| == 12
    ensures FieldProcessId() != FieldAgreement() && FieldProcessId() != FieldEventType()
    ensures |FieldAgreement()| == 16
  {
    assert FieldProcessId()[7] != FieldAgreement()[7];
    assert FieldProcessId()[7] != FieldEventType()[7];
  }
}
