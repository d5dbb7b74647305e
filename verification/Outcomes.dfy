/**
 What each request leaves behind and answers, slot by slot
 (components/dsp_neg/dsp_neg.c and components/dsp_xfer/dsp_xfer.c, the POST
 handlers): the steps of the provider in terms of the fields of its tables.
 */
module Outcomes {
  import opened CText
  import opened Slots
  import opened Requests
  import opened Protocol
  import opened JsonValue
  import opened JsonEdit
  import opened JsonLd
  import opened DspMsg
  import JsonParse
  import J = DspJson
  import B = DspBuild
  import N = Negotiation
  import X = Transfer

  // ---------------------------------------------------------------------
  // Which slot an id names, and which one is free
  // ---------------------------------------------------------------------

  /** The first active negotiation of that id stands at `k`. */
  ghost predicate NegAt(t: seq<N.Entry>, id: text, k: nat) {
    && k < |t| && t[k].active && CStr(t[k].consumerPid) == id
    && forall j :: 0 <= j < k ==> !(t[j].active && CStr(t[j].consumerPid) == id)
  }

  ghost predicate NoNeg(t: seq<N.Entry>, id: text) {
    forall j :: 0 <= j < |t| ==> !(t[j].active && CStr(t[j].consumerPid) == id)
  }

  ghost predicate XferAt(t: seq<X.Entry>, id: text, k: nat) {
    && k < |t| && t[k].active && CStr(t[k].processId) == id
    && forall j :: 0 <= j < k ==> !(t[j].active && CStr(t[j].processId) == id)
  }

  ghost predicate NoXfer(t: seq<X.Entry>, id: text) {
    forall j :: 0 <= j < |t| ==> !(t[j].active && CStr(t[j].processId) == id)
  }

  ghost predicate NegFree(t: seq<N.Entry>, k: nat) {
    k < |t| && !t[k].active && forall j :: 0 <= j < k ==> t[j].active
  }

  ghost predicate XferFree(t: seq<X.Entry>, k: nat) {
    k < |t| && !t[k].active && forall j :: 0 <= j < k ==> t[j].active
  }

  lemma NegFound(t: seq<N.Entry>, id: text, k: nat)
    requires N.TableOk(t) && NulFree(id)
    ensures NegAt(t, id, k) ==> N.Find(t, id) == k
    ensures NoNeg(t, id) ==> N.Find(t, id) == |t|
  {
    hide N.TableOk, N.Find;
    if NegAt(t, id, k) { N.FindIs(t, id, k); }
    if NoNeg(t, id) { N.FindIs(t, id, |t|); }
  }

  lemma XferFound(t: seq<X.Entry>, id: text, k: nat)
    requires X.TableOk(t) && NulFree(id)
    ensures XferAt(t, id, k) ==> X.Find(t, id) == k
    ensures NoXfer(t, id) ==> X.Find(t, id) == |t|
  {
    hide X.TableOk, X.Find;
    X.FindMeans(t, id);
  }

  lemma NegFreeFound(t: seq<N.Entry>, k: nat)
    ensures NegFree(t, k) ==> N.FirstFree(t) == k
    ensures (forall j :: 0 <= j < |t| ==> t[j].active) ==> N.FirstFree(t) == |t|
  {}

  lemma XferFreeFound(t: seq<X.Entry>, k: nat)
    ensures XferFree(t, k) ==> X.FirstFree(t) == k
    ensures (forall j :: 0 <= j < |t| ==> t[j].active) ==> X.FirstFree(t) == |t|
  {}

  // ---------------------------------------------------------------------
  // Which id a request carries
  // ---------------------------------------------------------------------

  /** A path carries the id behind its prefix, up to the next slash; 63 characters of it are seen. */
  lemma PathCarriesId(id: text, rest: text)
    requires NulFree(id) && NulFree(rest) && SLASH !in id && (rest == [] || rest[0] == SLASH)
    ensures IdOf(Agree(NegotiationsPrefix() + id + rest)) == (if |id| <= 63 then id else id[..63])
    ensures IdOf(Complete(TransfersPrefix() + id + rest)) == (if |id| <= 63 then id else id[..63])
  {
    hide PathId, NegotiationsPrefix, TransfersPrefix;
    PathIdMeans(NegotiationsPrefix(), id, rest);
    PathIdMeans(TransfersPrefix(), id, rest);
    CStrOfTerminated(NegotiationsPrefix() + id + rest, []);
    CStrOfTerminated(TransfersPrefix() + id + rest, []);
  }

  /** Bodies carry it as their process id; an offer is no catalog request, a start also names its data set. */
  lemma BodyCarriesId(body: text, id: text)
    requires NulFree(body) && |body| <= 1023 && id != []
    ensures var carried := |id| <= 63 && JsonParse.Parse(body).Some?
                           && LookUp(JsonParse.Parse(body).value, FieldProcessId()) == Some(String(id));
            && (IdOf(Terminate(body)) == id <==> carried)
            && (IdOf(Offers(body)) == id <==>
                carried && var v := JsonParse.Parse(body).value;
                !(TextAt(v, FieldContext()) && LookUp(v, FieldType()) == Some(String(TypeCatalogRequest()))))
            && (IdOf(Start(body)) == id <==>
                carried && var v := JsonParse.Parse(body).value;
                && TextAt(v, FieldContext()) && LookUp(v, FieldType()) == Some(String(TypeTransferRequest()))
                && TextAt(v, FieldDataset()))
  {
    hide LookUp, JsonParse.Parse, ProcessId, OffersId, StartId, BodyText;
    hide FieldContext, FieldType, FieldDataset, TypeCatalogRequest, TypeTransferRequest;
    BodyTextMeans(body);
    ProcessIdMeans(body, id);
    OffersIdMeans(body, id);
    StartIdMeans(body, id);
  }

  // ---------------------------------------------------------------------
  // Offers
  // ---------------------------------------------------------------------

  /** Nothing but slot `k` of the negotiations changed. */
  ghost predicate OnlyNeg(s: State, after: State, k: nat)
    requires k < |s.neg|
  {
    && after.xfer == s.xfer && after.notify == s.notify && after.calls == s.calls
    && |after.neg| == |s.neg| && forall i :: 0 <= i < |s.neg| && i != k ==> after.neg[i] == s.neg[i]
  }

  /** An accepted offer fills the first free slot with both ids, each in its own field. */
  lemma OfferAccepted(s: State, id: text, ppid: text, k: nat)
    requires NulFree(id) && NulFree(ppid) && 0 < |id| <= 63 && NegFree(s.neg, k)
    ensures OffersStep(s, id, ppid).1 == Created201
    ensures var after := OffersStep(s, id, ppid).0;
            && OnlyNeg(s, after, k)
            && after.neg[k].active && after.neg[k].state == N.OFFERED
            && CStr(after.neg[k].consumerPid) == id
            && CStr(after.neg[k].providerPid) == (if |ppid| <= 63 then ppid else ppid[..63])
            && (NoNeg(s.neg, id) ==> NegAt(after.neg, id, k))
  {
    hide Stored, CStr, First;
    NegFreeFound(s.neg, k);
    StoredReads(id);
    StoredReads(ppid);
  }

  /** A refused offer changes nothing: no id in the body, or no free slot. */
  lemma OfferRefused(s: State, id: text, ppid: text)
    ensures id == [] ==> OffersStep(s, id, ppid) == (s, BadRequest400)
    ensures id != [] && (forall j :: 0 <= j < |s.neg| ==> s.neg[j].active) ==>
              OffersStep(s, id, ppid) == (s, ServerError500)
  {
    NegFreeFound(s.neg, 0);
  }

  // ---------------------------------------------------------------------
  // Agreement and termination
  // ---------------------------------------------------------------------

  /** An agreement succeeds before verification, also when repeated, and leaves AGREED; otherwise it changes nothing. */
  lemma AgreeOutcome(s: State, id: text, k: nat)
    requires N.TableOk(s.neg) && NulFree(id) && id != [] && NegAt(s.neg, id, k)
    ensures var was, after := s.neg[k], AgreeStep(s, id).0;
            if was.state == N.REQUESTED || was.state == N.OFFERED || was.state == N.AGREED then
              AgreeStep(s, id).1 == Ok200 && OnlyNeg(s, after, k) && after.neg[k] == was.(state := N.AGREED)
            else AgreeStep(s, id) == (s, BadRequest400)
  {
    hide N.TableOk, N.Find, CStr;
    NegFound(s.neg, id, k);
    assert s.neg[k := s.neg[k]] == s.neg;
  }

  /** A termination of a known id succeeds; the slot ends TERMINATED unless it was FINALIZED or not under way. */
  lemma TerminateOutcome(s: State, id: text, k: nat)
    requires N.TableOk(s.neg) && NulFree(id) && id != [] && NegAt(s.neg, id, k)
    ensures TerminateStep(s, id).1 == Ok200
    ensures var was, after := s.neg[k], TerminateStep(s, id).0;
            if N.REQUESTED <= was.state <= N.VERIFIED then
              OnlyNeg(s, after, k) && after.neg[k] == was.(state := N.TERMINATED)
            else after == s
  {
    hide N.TableOk, N.Find, CStr;
    NegFound(s.neg, id, k);
    assert s.neg[k := s.neg[k]] == s.neg;
  }

  /** An unknown id is not found, and no id at all is a bad request. */
  lemma UnknownNegotiation(s: State, id: text)
    requires N.TableOk(s.neg) && NulFree(id) && NoNeg(s.neg, id)
    ensures AgreeStep(s, id) == TerminateStep(s, id) == (s, if id == [] then BadRequest400 else NotFound404)
  {
    hide N.TableOk, N.Find, CStr;
    NegFound(s.neg, id, 0);
  }

  lemma NoId(s: State)
    ensures AgreeStep(s, []) == TerminateStep(s, []) == StartStep(s, []) == CompleteStep(s, []) == (s, BadRequest400)
  {}

  // ---------------------------------------------------------------------
  // Transfers
  // ---------------------------------------------------------------------

  /** Nothing but slot `i` of the transfers changed, and the calls of the callback. */
  ghost predicate OnlyXfer(s: State, after: State, i: nat)
    requires i < |s.xfer|
  {
    && after.neg == s.neg && after.notify == s.notify
    && |after.xfer| == |s.xfer| && forall j :: 0 <= j < |s.xfer| && j != i ==> after.xfer[j] == s.xfer[j]
  }

  /** A start for an agreed id fills the first free slot, which is TRANSFERRING and announced. */
  lemma StartAccepted(s: State, id: text, k: nat, i: nat)
    requires N.TableOk(s.neg) && NulFree(id) && 0 < |id| <= 63
    requires NegAt(s.neg, id, k) && s.neg[k].state == N.AGREED && XferFree(s.xfer, i)
    ensures StartStep(s, id).1 == Ok200
    ensures var after := StartStep(s, id).0;
            && OnlyXfer(s, after, i)
            && after.xfer[i].active && after.xfer[i].state == X.TRANSFERRING && CStr(after.xfer[i].processId) == id
            && (NoXfer(s.xfer, id) ==> XferAt(after.xfer, id, i))
            && after.calls == if s.notify then s.calls + [i] else s.calls
  {
    hide N.TableOk, N.Find, Stored, CStr, First;
    NegFound(s.neg, id, k);
    XferFreeFound(s.xfer, i);
    StoredReads(id);
  }

  /** Without an agreed negotiation of that id, or without a free slot, nothing is started. */
  lemma StartRefused(s: State, id: text, k: nat)
    requires N.TableOk(s.neg) && NulFree(id) && id != []
    ensures NoNeg(s.neg, id) ==> StartStep(s, id) == (s, BadRequest400)
    ensures NegAt(s.neg, id, k) && s.neg[k].state != N.AGREED ==> StartStep(s, id) == (s, BadRequest400)
    ensures NegAt(s.neg, id, k) && (forall j :: 0 <= j < |s.xfer| ==> s.xfer[j].active) ==>
              StartStep(s, id) == (s, if s.neg[k].state == N.AGREED then ServerError500 else BadRequest400)
  {
    hide N.TableOk, N.Find, CStr;
    NegFound(s.neg, id, k);
    XferFreeFound(s.xfer, 0);
  }

  /** A completion succeeds for a transfer under way, which it completes; otherwise it changes nothing. */
  lemma CompleteOutcome(s: State, id: text, i: nat)
    requires X.TableOk(s.xfer) && NulFree(id) && id != [] && XferAt(s.xfer, id, i)
    ensures var was, after := s.xfer[i], CompleteStep(s, id).0;
            if was.state == X.TRANSFERRING then
              && CompleteStep(s, id).1 == Ok200
              && OnlyXfer(s, after, i) && after.xfer[i] == was.(state := X.COMPLETED) && after.calls == s.calls
            else CompleteStep(s, id) == (s, BadRequest400)
  {
    hide X.TableOk, X.Find, CStr;
    XferFound(s.xfer, id, i);
  }

  lemma UnknownTransfer(s: State, id: text)
    requires X.TableOk(s.xfer) && NulFree(id) && id != [] && NoXfer(s.xfer, id)
    ensures CompleteStep(s, id) == (s, NotFound404)
  {
    hide X.TableOk, X.Find, CStr;
    XferFound(s.xfer, id, 0);
  }

  // ---------------------------------------------------------------------
  // One exchange from offer to completion
  // ---------------------------------------------------------------------

  /** In a reachable state, a transfer has a negotiation of its id. */
  lemma NoNegNoXfer(s: State, id: text)
    requires Invariant(s) && NulFree(id) && NoNeg(s.neg, id)
    ensures NoXfer(s.xfer, id)
  {
    hide N.TableOk, X.TableOk, N.Find, CStr;
    NegFound(s.neg, id, 0);
    forall j | 0 <= j < |s.xfer| && s.xfer[j].active ensures CStr(s.xfer[j].processId) != id {
      assert Backed(s.neg, CStr(s.xfer[j].processId));
    }
  }

  /**
   A consumer with a new id gets through: offered, agreed, started and
   completed, each request answered with success, while both tables have a
   free slot.
   */
  lemma ExchangeSucceeds(s: State, offer: Request, agree: Request, start: Request, complete: Request,
                         id: text, ppid: text, k: nat, i: nat)
    requires offer.Offers? && agree.Agree? && start.Start? && complete.Complete?
    requires IdOf(offer) == IdOf(agree) == IdOf(start) == IdOf(complete) == id && id != []
    requires Invariant(s) && NulFree(ppid) && NoNeg(s.neg, id) && NegFree(s.neg, k) && XferFree(s.xfer, i)
    ensures var (offered, r1) := Step(s, offer, ppid);
            var (agreed, r2) := Step(offered, agree, ppid);
            var (started, r3) := Step(agreed, start, ppid);
            var (done, r4) := Step(started, complete, ppid);
            && r1 == Created201 && r2 == r3 == r4 == Ok200
            && NegAt(done.neg, id, k) && done.neg[k].state == N.AGREED
            && XferAt(done.xfer, id, i) && done.xfer[i].state == X.COMPLETED
            && done.calls == if s.notify then s.calls + [i] else s.calls
  {
    hide OffersStep, AgreeStep, StartStep, CompleteStep, IdOf, N.TableOk, X.TableOk, CStr, AllBacked;
    NoNegNoXfer(s, id);
    OfferAccepted(s, id, ppid, k);
    OffersKeeps(s, id, ppid);
    var offered := OffersStep(s, id, ppid).0;
    AgreeOutcome(offered, id, k);
    AgreeKeeps(offered, id);
    var agreed := AgreeStep(offered, id).0;
    assert NegAt(agreed.neg, id, k);
    StartAccepted(agreed, id, k, i);
    StartKeeps(agreed, id);
    var started := StartStep(agreed, id).0;
    CompleteOutcome(started, id, i);
  }

  /** An offer that was terminated cannot be agreed any more. */
  lemma TerminatedIsFinal(s: State, terminate: Request, agree: Request, id: text, ppid: text, k: nat)
    requires terminate.Terminate? && agree.Agree? && IdOf(terminate) == IdOf(agree) == id && id != []
    requires Invariant(s) && NegAt(s.neg, id, k) && s.neg[k].state == N.OFFERED
    ensures var (ended, r) := Step(s, terminate, ppid);
            && r == Ok200 && ended.neg[k].state == N.TERMINATED
            && Step(ended, agree, ppid) == (ended, BadRequest400)
  {
    hide AgreeStep, TerminateStep, IdOf, N.TableOk, X.TableOk, CStr, AllBacked;
    TerminateOutcome(s, id, k);
    TerminateKeeps(s, id);
    AgreeOutcome(TerminateStep(s, id).0, id, k);
  }

  // ---------------------------------------------------------------------
  // Replies
  // ---------------------------------------------------------------------

  /** The state that the reply of a negotiation handler names. */
  lemma ReplyNamesState(req: Request, r: Response, reply: text, ppid: text)
    requires req.Offers? || req.Agree? || req.Terminate?
    requires Answered(req, r, reply, ppid) && (r == Ok200 || r == Created201)
    ensures JsonParse.Parse(reply).Some?
    ensures var m := JsonParse.Parse(reply).value;
            && LookUp(m, FieldType()) == Some(String(TypeNegotiationEvent()))
            && LookUp(m, FieldProcessId()) == Some(String(IdOf(req)))
            && (req.Offers? ==> LookUp(m, FieldEventType()) == Some(String(StateOffered())))
            && (req.Agree? ==> LookUp(m, FieldEventType()) == Some(String(StateAgreed())))
            && (req.Terminate? ==> LookUp(m, FieldEventType()) == Some(String(StateTerminated())))
  {
    hide LookUp, JsonParse.Parse, J.Text, IdOf, B.NegotiationEvent;
    hide FieldType, FieldProcessId, FieldEventType, TypeNegotiationEvent;
    B.EventLooksUp(IdOf(req), match req case Offers(_) => StateOffered() case Agree(_) => StateAgreed()
                              case _ => StateTerminated());
  }

  /** The reply to a start names the provider's address; it is only sent if it fits. */
  lemma ReplyNamesAddress(req: Request, r: Response, reply: text, ppid: text)
    requires req.Start? && Answered(req, r, reply, ppid) && r == Ok200
    ensures if |J.Text(B.TransferStart(IdOf(req), ppid))| < 1024 then
              && JsonParse.Parse(reply).Some?
              && var m := JsonParse.Parse(reply).value;
                 && LookUp(m, FieldType()) == Some(String(TypeTransferStart()))
                 && LookUp(m, FieldProcessId()) == Some(String(IdOf(req)))
                 && B.Nested(m, FieldDataAddress(), FieldEndpointUrl()) == Some(String(ppid))
            else reply == []
  {
    hide LookUp, JsonParse.Parse, J.Text, IdOf, B.TransferStart, B.Nested;
    hide FieldType, FieldProcessId, FieldDataAddress, FieldEndpointUrl, TypeTransferStart;
    B.TransferStartLooksUp(IdOf(req), ppid);
  }

  lemma ReplyCompletes(req: Request, r: Response, reply: text, ppid: text)
    requires req.Complete? && Answered(req, r, reply, ppid) && r == Ok200
    ensures JsonParse.Parse(reply).Some?
    ensures var m := JsonParse.Parse(reply).value;
            && LookUp(m, FieldType()) == Some(String(TypeTransferCompletion()))
            && LookUp(m, FieldProcessId()) == Some(String(IdOf(req)))
  {
    hide LookUp, JsonParse.Parse, J.Text, IdOf, B.TransferCompletion;
    hide FieldType, FieldProcessId, TypeTransferCompletion;
    B.CompletionLooksUp(IdOf(req));
  }

  /** A request that fails is answered without a message. */
  lemma FailureIsSilent(req: Request, r: Response, reply: text, ppid: text)
    requires !req.Sleep? && Answered(req, r, reply, ppid) && r != Ok200 && r != Created201
    ensures reply == []
  {}
}
