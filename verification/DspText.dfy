/**
 The built messages as they are sent (components/dsp_build/dsp_build.c): their
 exact text, for all values.
 */
module DspText {
  import opened CText
  import opened JsonString
  import opened JsonValue
  import opened JsonLd
  import opened DspJson
  import opened DspBuild

  /** A quoted name, a colon and a quoted value. */
  function Pair(name: text, val: text): text {
    Lit("\"") + name + Lit("\":\"") + Escape(val) + Lit("\"")
  }

  /** The context and the type, which start every message. */
  function Start(kind: text): text {
    Lit("{") + Pair(FieldContext(), ContextUrl()) + Lit(",") + Pair(FieldType(), kind) + Lit(",")
  }

  /** What stands in front of a nested value behind another member. */
  function Label(name: text): text {
    Lit(",\"") + name + Lit("\":")
  }

  /** A nested object with a type and an id. */
  function Thing(kind: text, id: text): text {
    Lit("{") + Pair(FieldType(), kind) + Lit(",") + Pair(FieldId(), id) + Lit("}")
  }

  lemma {:induction false} EscapeOfUnescaped(t: text)
    requires Unescaped(t)
    ensures Escape(t) == t
  {
    if t != [] {
      assert t[0] > 32 && t[0] != QUOTE && t[0] != BACKSLASH;
      EscapeOfUnescaped(t[1..]);
    }
  }

  lemma Quotes(name: text, val: text)
    ensures [QUOTE] + name + [QUOTE] + [COLON] + ([QUOTE] + Escape(val) + [QUOTE]) == Pair(name, val)
  {
    hide Escape;
    assert Lit("\"") == [QUOTE] && Lit("\":\"") == [QUOTE] + [COLON] + [QUOTE];
  }

  /** A string member is one pair, with a comma unless it is the last. */
  lemma PairText(name: text, val: text, depth: nat, last: bool)
    requires Unescaped(name)
    ensures RenderMember(StringMember(name, val), false, depth, last) ==
            Pair(name, val) + if last then [] else Lit(",")
  {
    hide Escape, Pair, Unescaped;
    EscapeOfUnescaped(name);
    Quotes(name, val);
    assert Lit(",") == [COMMA];
  }

  lemma MembersText(a: Member, rest: seq<Member>, depth: nat)
    ensures RenderMembers([a] + rest, false, depth) ==
            RenderMember(a, false, depth, rest == []) + RenderMembers(rest, false, depth)
  {
    assert ([a] + rest)[1..] == rest;
  }

  lemma MessageText(kind: text, rest: seq<Member>)
    requires rest != []
    ensures Text(Message(kind, rest)) == Start(kind) + RenderMembers(rest, false, 1) + Lit("}")
  {
    hide RenderMember, Pair, FieldContext, FieldType, ContextUrl;
    var stamp := Stamped(kind);
    assert stamp + rest == [stamp[0]] + ([stamp[1]] + rest);
    MembersText(stamp[0], [stamp[1]] + rest, 1);
    MembersText(stamp[1], rest, 1);
    PairText(FieldContext(), ContextUrl(), 1, false);
    PairText(FieldType(), kind, 1, false);
    assert Lit("{") == [OPEN_BRACE] && Lit("}") == [CLOSE_BRACE];
  }

  /** Two string members as text. */
  lemma PairsText(first: text, a: text, second: text, b: text, depth: nat)
    requires Unescaped(first) && Unescaped(second)
    ensures RenderMembers([StringMember(first, a), StringMember(second, b)], false, depth) ==
            Pair(first, a) + Lit(",") + Pair(second, b)
  {
    hide RenderMember, Pair;
    var m, n := StringMember(first, a), StringMember(second, b);
    assert [m, n] == [m] + [n] && [n] == [n] + [];
    MembersText(m, [n], depth);
    MembersText(n, [], depth);
    PairText(first, a, depth, false);
    PairText(second, b, depth, true);
  }

  /** One string member as text. */
  lemma OnlyText(name: text, val: text, depth: nat)
    requires Unescaped(name)
    ensures RenderMembers([StringMember(name, val)], false, depth) == Pair(name, val)
  {
    hide Pair, RenderMember, Unescaped;
    var only := StringMember(name, val);
    assert [only] == [only] + [];
    MembersText(only, [], depth);
    PairText(name, val, depth, true);
  }

  lemma LabelText(name: text)
    requires Unescaped(name)
    ensures [COMMA] + (Quote(name) + [COLON]) == Label(name)
  {
    hide Escape, Unescaped;
    EscapeOfUnescaped(name);
    assert Lit(",\"") == [COMMA] + [QUOTE] && Lit("\":") == [QUOTE] + [COLON];
  }

  /** A string member, then a nested object or array in its own text. */
  lemma NestedText(first: text, a: text, second: text, v: Json, depth: nat)
    requires Unescaped(first) && Unescaped(second)
    ensures RenderMembers([StringMember(first, a), Member(second, v)], false, depth) ==
            Pair(first, a) + Label(second) + Render(v, false, depth)
  {
    hide Pair, Render, Quote, Unescaped, Label;
    var m, n := StringMember(first, a), Member(second, v);
    assert [m, n] == [m] + [n] && [n] == [n] + [];
    MembersText(m, [n], depth);
    MembersText(n, [], depth);
    PairText(first, a, depth, false);
    LabelText(second);
    assert Lit(",") == [COMMA];
    assert RenderMember(n, false, depth, true) == Quote(second) + [COLON] + Render(v, false, depth);
  }

  lemma ThingText(kind: text, id: text, depth: nat)
    ensures Render(Object(Typed(kind, id)), false, depth) == Thing(kind, id)
  {
    hide Pair, RenderMembers, FieldType, FieldId;
    PairsText(FieldType(), kind, FieldId(), id, depth + 1);
    assert Lit("{") == [OPEN_BRACE] && Lit("}") == [CLOSE_BRACE];
  }

  // ---------------------------------------------------------------------
  // The six messages
  // ---------------------------------------------------------------------

  lemma EventText(processId: text, state: text)
    ensures Text(NegotiationEvent(processId, state)) ==
            Start(TypeNegotiationEvent())
            + Pair(FieldProcessId(), processId) + Lit(",") + Pair(FieldEventType(), state) + Lit("}")
  {
    hide Start, Pair, RenderMembers, Text, FieldProcessId, FieldEventType, TypeNegotiationEvent;
    MessageText(TypeNegotiationEvent(),
                [StringMember(FieldProcessId(), processId), StringMember(FieldEventType(), state)]);
    PairsText(FieldProcessId(), processId, FieldEventType(), state, 1);
  }

  lemma ErrorText(code: text, reason: text)
    ensures Text(ErrorMessage(code, reason)) ==
            Start(TypeError()) + Pair(FieldCode(), code) + Lit(",") + Pair(FieldReason(), reason) + Lit("}")
  {
    hide Start, Pair, RenderMembers, Text, FieldCode, FieldReason, TypeError;
    MessageText(TypeError(), [StringMember(FieldCode(), code), StringMember(FieldReason(), reason)]);
    PairsText(FieldCode(), code, FieldReason(), reason, 1);
  }

  lemma CompletionText(processId: text)
    ensures Text(TransferCompletion(processId)) ==
            Start(TypeTransferCompletion()) + Pair(FieldProcessId(), processId) + Lit("}")
  {
    hide Start, Pair, Text, FieldProcessId, TypeTransferCompletion, RenderMembers;
    MessageText(TypeTransferCompletion(), [StringMember(FieldProcessId(), processId)]);
    OnlyText(FieldProcessId(), processId, 1);
  }

  lemma AgreementText(processId: text, agreementId: text)
    ensures Text(AgreementMessage(processId, agreementId)) ==
            Start(TypeContractAgreement()) + (Pair(FieldProcessId(), processId)
            + Label(FieldAgreement()) + Thing(TypeAgreement(), agreementId)) + Lit("}")
  {
    hide Start, Pair, Label, Thing, Render, RenderMembers, Text, Typed;
    hide FieldProcessId, FieldAgreement, TypeAgreement, TypeContractAgreement;
    var parts := Object(Typed(TypeAgreement(), agreementId));
    MessageText(TypeContractAgreement(), [StringMember(FieldProcessId(), processId), Member(FieldAgreement(), parts)]);
    NestedText(FieldProcessId(), processId, FieldAgreement(), parts, 1);
    ThingText(TypeAgreement(), agreementId, 1);
  }

  lemma TransferStartText(processId: text, endpointUrl: text)
    ensures Text(TransferStart(processId, endpointUrl)) ==
            Start(TypeTransferStart()) + (Pair(FieldProcessId(), processId)
            + Label(FieldDataAddress()) + (Lit("{") + Pair(FieldEndpointUrl(), endpointUrl) + Lit("}"))) + Lit("}")
  {
    hide Start, Pair, Label, Text, RenderMembers, RenderMember;
    hide FieldProcessId, FieldDataAddress, FieldEndpointUrl, TypeTransferStart;
    var only := StringMember(FieldEndpointUrl(), endpointUrl);
    var parts := Object([only]);
    MessageText(TypeTransferStart(), [StringMember(FieldProcessId(), processId), Member(FieldDataAddress(), parts)]);
    NestedText(FieldProcessId(), processId, FieldDataAddress(), parts, 1);
    OnlyText(FieldEndpointUrl(), endpointUrl, 2);
    assert Lit("{") == [OPEN_BRACE] && Lit("}") == [CLOSE_BRACE];
  }

  lemma CatalogText(datasetId: text, title: text)
    ensures Text(CatalogMessage(datasetId, title)) ==
            Start(TypeCatalog()) + (Pair(FieldTitle(), title)
            + Label(FieldCatalogDataset()) + (Lit("[") + Thing(TypeDataset(), datasetId) + Lit("]"))) + Lit("}")
  {
    hide Start, Pair, Label, Thing, Text, RenderMembers, Typed;
    hide FieldTitle, FieldCatalogDataset, TypeCatalog, TypeDataset;
    var parts := Object(Typed(TypeDataset(), datasetId));
    MessageText(TypeCatalog(), [StringMember(FieldTitle(), title), Member(FieldCatalogDataset(), Array([parts]))]);
    NestedText(FieldTitle(), title, FieldCatalogDataset(), Array([parts]), 1);
    ThingText(TypeDataset(), datasetId, 2);
    assert RenderItems([parts], false, 2) == Render(parts, false, 2);
    assert Lit("[") == [OPEN_BRACKET] && Lit("]") == [CLOSE_BRACKET];
  }
}
