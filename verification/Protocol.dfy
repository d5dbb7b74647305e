/**
 The request handlers of the provider as steps over both slot tables
 (components/dsp_neg/dsp_neg.c and components/dsp_xfer/dsp_xfer.c, the POST
 handlers), interleaved with sleep and wake-up, and what holds in every run.
 */
module Protocol {
  import opened CText
  import opened Slots
  import opened RtcState
  import opened Requests
  import JsonParse
  import JsonValue
  import L = JsonLd
  import J = DspJson
  import B = DspBuild
  import M = DspMsg
  import N = Negotiation
  import X = Transfer

  /** The requests that change state, by the body received or the path requested. */
  datatype Request =
    | Offers(body: text)
    | Agree(uri: text)
    | Terminate(body: text)
    | Start(body: text)
    | Complete(uri: text)
    | Sleep

  datatype Response = Created201 | Ok200 | BadRequest400 | NotFound404 | ServerError500

  /** Both tables, whether the transfer callback is registered, and the slots it was called for so far. */
  datatype State = State(neg: seq<N.Entry>, xfer: seq<X.Entry>, notify: bool, calls: seq<int>)

  /** The process id that a request carries; the empty one if it has none. */
  ghost function IdOf(req: Request): (id: text)
    ensures |id| < PID_LEN && NulFree(id)
  {
    match req
    case Offers(body) => OffersId(BodyText(body))
    case Agree(uri) => PathId(NegotiationsPrefix(), CStr(uri))
    case Terminate(body) => ProcessId(BodyText(body))
    case Start(body) => StartId(BodyText(body))
    case Complete(uri) => PathId(TransfersPrefix(), CStr(uri))
    case Sleep => []
  }

  // ---------------------------------------------------------------------
  // The steps
  // ---------------------------------------------------------------------

  function OffersStep(s: State, id: text, ppid: text): (State, Response) {
    var k := N.FirstFree(s.neg);
    if id == [] then (s, BadRequest400)
    else if k == |s.neg| then (s, ServerError500)
    else (s.(neg := N.Applied(N.Created(s.neg, id, ppid), k, N.Offer)), Created201)
  }

  function AgreeStep(s: State, id: text): (State, Response) {
    var k := N.Find(s.neg, id);
    if id == [] then (s, BadRequest400)
    else if k == |s.neg| then (s, NotFound404)
    else
      var neg := N.Applied(s.neg, k, N.Agree);
      (s.(neg := neg), if neg[k].state == N.AGREED then Ok200 else BadRequest400)
  }

  function TerminateStep(s: State, id: text): (State, Response) {
    var k := N.Find(s.neg, id);
    if id == [] then (s, BadRequest400)
    else if k == |s.neg| then (s, NotFound404)
    else (s.(neg := N.Applied(s.neg, k, N.Terminate)), Ok200)
  }

  function StartStep(s: State, id: text): (State, Response) {
    var k, i := N.Find(s.neg, id), X.FirstFree(s.xfer);
    if id == [] || k == |s.neg| || s.neg[k].state != N.AGREED then (s, BadRequest400)
    else if i == |s.xfer| then (s, ServerError500)
    else
      var xfer := X.Applied(X.Created(s.xfer, id), i, X.Start);
      (s.(xfer := xfer, calls := if s.notify then s.calls + [i] else s.calls), Ok200)
  }

  function CompleteStep(s: State, id: text): (State, Response) {
    var i := X.Find(s.xfer, id);
    if id == [] then (s, BadRequest400)
    else if i == |s.xfer| then (s, NotFound404)
    else if s.xfer[i].state != X.TRANSFERRING then (s, BadRequest400)
    else (s.(xfer := X.Applied(s.xfer, i, X.Complete)), Ok200)
  }

  /** Saved, cleared, initialised and restored. */
  function SleepStep(s: State): State {
    s.(neg := RestoredNeg(N.ClearedTable(|s.neg|), SavedNeg(s.neg), true),
       xfer := RestoredXfer(X.ClearedTable(|s.xfer|), SavedXfer(s.xfer), true))
  }

  ghost function Step(s: State, req: Request, ppid: text): (State, Response) {
    match req
    case Offers(_) => OffersStep(s, IdOf(req), ppid)
    case Agree(_) => AgreeStep(s, IdOf(req))
    case Terminate(_) => TerminateStep(s, IdOf(req))
    case Start(_) => StartStep(s, IdOf(req))
    case Complete(_) => CompleteStep(s, IdOf(req))
    case Sleep => (SleepStep(s), Ok200)
  }

  /** The message that answers a successful request. */
  ghost function Answer(req: Request, ppid: text): JsonValue.Json
    requires !req.Sleep?
  {
    match req
    case Offers(_) => B.NegotiationEvent(IdOf(req), L.StateOffered())
    case Agree(_) => B.NegotiationEvent(IdOf(req), L.StateAgreed())
    case Terminate(_) => B.NegotiationEvent(IdOf(req), L.StateTerminated())
    case Start(_) => B.TransferStart(IdOf(req), ppid)
    case Complete(_) => B.TransferCompletion(IdOf(req))
  }

  /**
   What is sent: for a success the text of its message. Only the start message,
   which carries the provider's own name, may not fit; then nothing is sent.
   */
  ghost predicate Answered(req: Request, r: Response, reply: text, ppid: text)
    requires !req.Sleep?
  {
    if r != Ok200 && r != Created201 then reply == []
    else if req.Start? && !J.Fits(Answer(req, ppid), BUF_SIZE) then reply == []
    else reply == J.Text(Answer(req, ppid)) && JsonParse.Parse(reply) == Some(Answer(req, ppid))
  }

  // ---------------------------------------------------------------------
  // The handlers take these steps
  // ---------------------------------------------------------------------

  class Provider {
    const neg: N.Table
    const xfer: X.Table
    const store: Store
    const providerId: text

    ghost predicate Valid()
      reads this, neg, neg.slots, xfer, xfer.slots, store, store.neg, store.xfer
    {
      && neg.Valid() && xfer.Valid() && store.Valid() && NulFree(providerId)
      && store.neg.Length == neg.slots.Length && store.xfer.Length == xfer.slots.Length
    }

    ghost function Now(): State
      reads neg, neg.slots, xfer, xfer.slots
    {
      State(neg.slots[..], xfer.slots[..], xfer.notify, xfer.calls)
    }

    /** Initialised, with or without the callback registered. */
    constructor (negMax: nat, xferMax: nat, providerId: text, notify: bool)
      requires NulFree(providerId)
      ensures Valid() && Now() == State(N.ClearedTable(negMax), X.ClearedTable(xferMax), notify, [])
      ensures neg.initialized && xfer.initialized
    {
      neg := new N.Table(negMax);
      xfer := new X.Table(xferMax);
      store := new Store(negMax, xferMax);
      this.providerId := providerId;
      new;
      hide N.TableOk, X.TableOk, X.Recorded, Shaped, N.Cleared, X.Cleared;
      var _ := neg.Init();
      var _ := xfer.Init();
      xfer.SetNotify(notify);
    }

    /** Builds the reply of a negotiation handler, which always fits. */
    method EventReply(id: text, state: text) returns (reply: text)
      requires |id| < PID_LEN && NulFree(id) && NulFree(state) && L.Unescaped(state) && |state| <= 20
      ensures reply == J.Text(B.NegotiationEvent(id, state))
      ensures JsonParse.Parse(reply) == Some(B.NegotiationEvent(id, state))
    {
      hide J.Fits, J.Text, B.NegotiationEvent, CStr, NulFree, JsonParse.Parse;
      EventFits(id, state);
      var resp := new uchar[BUF_SIZE];
      var _ := B.BuildNegotiationEvent(resp, BUF_SIZE, Some(id), Some(state));
      return CStr(resp[..]);
    }

    method OffersPost(received: text) returns (r: Response, reply: text)
      requires Valid()
      modifies neg.slots
      ensures Valid() && (Now(), r) == OffersStep(old(Now()), IdOf(Offers(received)), providerId)
      ensures Answered(Offers(received), r, reply, providerId)
    {
      hide N.TableOk, X.TableOk, First, Stored, Shaped, BodyText, ProcessId, M.Common, M.Rejection, JsonParse.Parse,
           NulFree;
      hide J.Fits, J.Text, B.NegotiationEvent, X.Recorded, L.TypeCatalogRequest;
      if |received| == 0 {
        assert received == [];
        NothingReceived();
        return BadRequest400, [];
      }
      var body := BodyText(received);
      var verdict := M.ValidateCatalogRequest(Some(body));
      if verdict == M.MsgOk {
        return BadRequest400, [];
      }
      var parsed, cpid := ReadProcessId(body);
      if !parsed {
        Unparsed(body);
        return BadRequest400, [];
      }
      if |cpid| == 0 {
        return BadRequest400, [];
      }
      var idx := neg.Create(Some(cpid), Some(providerId));
      if idx < 0 {
        return ServerError500, [];
      }
      var _ := neg.Apply(idx, N.Offer);
      reply := EventReply(cpid, L.StateOffered());
      return Created201, reply;
    }

    method AgreePost(uri: text) returns (r: Response, reply: text)
      requires Valid()
      modifies neg.slots
      ensures Valid() && (Now(), r) == AgreeStep(old(Now()), IdOf(Agree(uri)))
      ensures Answered(Agree(uri), r, reply, providerId)
    {
      hide N.TableOk, X.TableOk, StrNEqual, Shaped, CStr, PathId, JsonParse.Parse, NulFree;
      hide J.Fits, J.Text, B.NegotiationEvent, X.Recorded, NegotiationsPrefix;
      var id := ExtractId(NegotiationsPrefix(), CStr(uri));
      if |id| == 0 {
        return BadRequest400, [];
      }
      var idx := neg.FindByCpid(Some(id));
      if idx < 0 {
        return NotFound404, [];
      }
      var newState := neg.Apply(idx, N.Agree);
      if newState != N.AGREED {
        return BadRequest400, [];
      }
      reply := EventReply(id, L.StateAgreed());
      return Ok200, reply;
    }

    method TerminatePost(received: text) returns (r: Response, reply: text)
      requires Valid()
      modifies neg.slots
      ensures Valid() && (Now(), r) == TerminateStep(old(Now()), IdOf(Terminate(received)))
      ensures Answered(Terminate(received), r, reply, providerId)
    {
      hide N.TableOk, X.TableOk, N.Find, Shaped, BodyText, ProcessId, JsonParse.Parse, NulFree;
      hide J.Fits, J.Text, B.NegotiationEvent, X.Recorded;
      if |received| == 0 {
        assert received == [];
        NothingReceived();
        return BadRequest400, [];
      }
      var body := BodyText(received);
      var parsed, cpid := ReadProcessId(body);
      if !parsed {
        Unparsed(body);
        return BadRequest400, [];
      }
      if |cpid| == 0 {
        return BadRequest400, [];
      }
      var idx := neg.FindByCpid(Some(cpid));
      if idx < 0 {
        return NotFound404, [];
      }
      var _ := neg.Apply(idx, N.Terminate);
      reply := EventReply(cpid, L.StateTerminated());
      return Ok200, reply;
    }

    method StartPost(received: text) returns (r: Response, reply: text)
      requires Valid()
      modifies xfer.slots, xfer`calls, xfer`filled, xfer`since
      ensures Valid() && (Now(), r) == StartStep(old(Now()), IdOf(Start(received)))
      ensures Answered(Start(received), r, reply, providerId)
    {
      hide N.TableOk, X.TableOk, StartStep, X.Recorded, Shaped, BodyText, ProcessId, IsTransferRequest, JsonParse.Parse;
      hide J.Fits, J.Text, B.TransferStart, NulFree, CStr, L.TypeTransferRequest, M.Common, M.TransferRequestFields;
      TransferOutcomes(Now(), IdOf(Start(received)));
      if |received| == 0 {
        assert received == [];
        NothingReceived();
        return BadRequest400, [];
      }
      var body := BodyText(received);
      var verdict := M.ValidateTransferRequest(Some(body));
      TransferRequestMeans(body);
      if verdict != M.MsgOk {
        return BadRequest400, [];
      }
      var parsed, pid := ReadProcessId(body);
      if !parsed {
        Unparsed(body);
        return BadRequest400, [];
      }
      r := StartTransfer(pid);
      if r != Ok200 {
        return r, [];
      }
      reply := StartReply(pid);
    }

    /** The part of the start handler that works on the tables. */
    method StartTransfer(pid: text) returns (r: Response)
      requires Valid() && NulFree(pid)
      modifies xfer.slots, xfer`calls, xfer`filled, xfer`since
      ensures Valid() && (Now(), r) == StartStep(old(Now()), pid)
    {
      hide N.TableOk, X.TableOk, First, StrNEqual, Stored, Shaped;
      if |pid| == 0 {
        return BadRequest400;
      }
      var negIdx := neg.FindByCpid(Some(pid));
      if negIdx < 0 {
        return BadRequest400;
      }
      var s := neg.GetState(negIdx);
      if s != N.AGREED {
        return BadRequest400;
      }
      var idx := xfer.Create(Some(pid));
      if idx < 0 {
        return ServerError500;
      }
      var _ := xfer.Apply(idx, X.Start);
      return Ok200;
    }

    /** Builds the reply of the start handler; an address that does not fit leaves it empty. */
    method StartReply(pid: text) returns (reply: text)
      requires NulFree(pid) && NulFree(providerId)
      ensures if J.Fits(B.TransferStart(pid, providerId), BUF_SIZE)
              then reply == J.Text(B.TransferStart(pid, providerId))
                   && JsonParse.Parse(reply) == Some(B.TransferStart(pid, providerId))
              else reply == []
    {
      hide J.Fits, J.Text, B.TransferStart, NulFree, JsonParse.Parse;
      var resp := new uchar[BUF_SIZE];
      var _ := B.BuildTransferStart(resp, BUF_SIZE, Some(pid), Some(providerId));
      return CStr(resp[..]);
    }

    method CompletePost(uri: text) returns (r: Response, reply: text)
      requires Valid()
      modifies xfer.slots, xfer`calls
      ensures Valid() && (Now(), r) == CompleteStep(old(Now()), IdOf(Complete(uri)))
      ensures Answered(Complete(uri), r, reply, providerId)
    {
      hide N.TableOk, X.TableOk, CompleteStep, X.Recorded, Shaped, CStr, PathId, JsonParse.Parse, NulFree;
      hide J.Fits, J.Text, B.TransferCompletion, TransfersPrefix;
      TransferOutcomes(Now(), IdOf(Complete(uri)));
      var id := ExtractId(TransfersPrefix(), CStr(uri));
      r := CompleteTransfer(id);
      if r != Ok200 {
        return r, [];
      }
      reply := CompletionReply(id);
    }

    /** The part of the completion handler that works on the table. */
    method CompleteTransfer(id: text) returns (r: Response)
      requires Valid() && NulFree(id)
      modifies xfer.slots, xfer`calls
      ensures Valid() && (Now(), r) == CompleteStep(old(Now()), id)
    {
      hide N.TableOk, X.TableOk, StrNEqual, Shaped;
      if |id| == 0 {
        return BadRequest400;
      }
      var idx := xfer.FindByPid(Some(id));
      if idx < 0 {
        return NotFound404;
      }
      var s := xfer.GetState(idx);
      if s != X.TRANSFERRING {
        return BadRequest400;
      }
      var _ := xfer.Apply(idx, X.Complete);
      return Ok200;
    }

    /** Builds the reply of the completion handler, which always fits. */
    method CompletionReply(id: text) returns (reply: text)
      requires |id| < PID_LEN && NulFree(id)
      ensures reply == J.Text(B.TransferCompletion(id))
      ensures JsonParse.Parse(reply) == Some(B.TransferCompletion(id))
    {
      hide J.Fits, J.Text, B.TransferCompletion, CStr, NulFree, JsonParse.Parse;
      CompletionFits(id);
      var resp := new uchar[BUF_SIZE];
      var _ := B.BuildTransferCompletion(resp, BUF_SIZE, Some(id));
      return CStr(resp[..]);
    }

    /** Serves one request. */
    method Serve(req: Request) returns (r: Response, reply: text)
      requires Valid()
      modifies neg`initialized, neg.slots, xfer`initialized, xfer`calls, xfer`filled, xfer`since, xfer.slots
      modifies store, store.neg, store.xfer
      ensures Valid() && (Now(), r) == Step(old(Now()), req, providerId)
      ensures if req.Sleep? then reply == [] else Answered(req, r, reply, providerId)
    {
      hide OffersStep, AgreeStep, TerminateStep, StartStep, CompleteStep, NulFree, N.TableOk, X.TableOk, Shaped;
      hide IdOf, Answered, X.Recorded;
      match req {
        case Offers(body) => r, reply := OffersPost(body);
        case Agree(uri) => r, reply := AgreePost(uri);
        case Terminate(body) => r, reply := TerminatePost(body);
        case Start(body) => r, reply := StartPost(body);
        case Complete(uri) => r, reply := CompletePost(uri);
        case Sleep =>
          SleepChangesNothing(Now());
          var _ := SleepAndWake(store, neg, xfer);
          return Ok200, [];
      }
    }
  }

  lemma TransferOutcomes(s: State, id: text)
    ensures StartStep(s, id).1 != Created201 && CompleteStep(s, id).1 != Created201
    ensures id == [] ==> StartStep(s, id) == (s, BadRequest400) == CompleteStep(s, id)
  {}

  lemma Unparsed(body: text)
    requires JsonParse.Parse(body).None?
    ensures ProcessId(body) == [] && OffersId(body) == []
  {}

  lemma TransferRequestMeans(body: text)
    ensures IsTransferRequest(body) <==>
            M.Common(Some(body), L.TypeTransferRequest()) && M.TransferRequestFields(JsonParse.Parse(body).value)
  {}

  /** Sleep and wake-up change nothing. */
  lemma SleepChangesNothing(s: State)
    requires N.TableOk(s.neg) && X.TableOk(s.xfer)
    ensures SleepStep(s) == s
  {
    NegRoundTrip(s.neg, true);
    XferRoundTrip(s.xfer, true);
  }

  // ---------------------------------------------------------------------
  // What holds in every run
  // ---------------------------------------------------------------------

  ghost predicate NegPrefix(t: seq<N.Entry>) {
    forall i, j :: 0 <= i < j < |t| && t[j].active ==> t[i].active
  }

  ghost predicate XferPrefix(t: seq<X.Entry>) {
    forall i, j :: 0 <= i < j < |t| && t[j].active ==> t[i].active
  }

  /** The id resolves to a negotiation that is agreed, or was and is now terminated. */
  ghost predicate Backed(neg: seq<N.Entry>, id: text) {
    var k := N.Find(neg, id);
    k < |neg| && (neg[k].state == N.AGREED || neg[k].state == N.TERMINATED)
  }

  ghost predicate AllBacked(s: State) {
    forall i :: 0 <= i < |s.xfer| && s.xfer[i].active ==>
      Backed(s.neg, CStr(s.xfer[i].processId)) && (s.xfer[i].state == X.TRANSFERRING || s.xfer[i].state == X.COMPLETED)
  }

  ghost predicate Invariant(s: State) {
    && N.TableOk(s.neg) && X.TableOk(s.xfer)
    && NegPrefix(s.neg) && XferPrefix(s.xfer)
    && AllBacked(s)
  }

  predicate Settled(was: N.state, now: N.state) {
    && (was == N.AGREED ==> now == N.AGREED || now == N.TERMINATED)
    && (was == N.TERMINATED ==> now == N.TERMINATED)
  }

  /** Occupied slots keep their ids, and agreed ones stay agreed until terminated. */
  ghost predicate Grows(t: seq<N.Entry>, t': seq<N.Entry>) {
    && |t| == |t'|
    && forall i :: 0 <= i < |t| && t[i].active ==>
         t'[i].active && t'[i].consumerPid == t[i].consumerPid && Settled(t[i].state, t'[i].state)
  }

  /** Because free slots come last, growing a table does not change what an id resolves to. */
  lemma FindGrows(t: seq<N.Entry>, t': seq<N.Entry>, id: text)
    requires N.TableOk(t) && N.TableOk(t') && NegPrefix(t) && Grows(t, t') && NulFree(id)
    requires N.Find(t, id) < |t|
    ensures N.Find(t', id) == N.Find(t, id)
  {
    hide N.Find, N.TableOk;
    var k := N.Find(t, id);
    N.FindMeans(t, id);
    assert forall j :: 0 <= j < k ==> t[j].active;
    N.FindIs(t', id, k);
  }

  lemma BackingGrows(s: State, neg': seq<N.Entry>)
    requires Invariant(s) && N.TableOk(neg') && Grows(s.neg, neg')
    ensures AllBacked(s.(neg := neg'))
  {
    hide N.TableOk, X.TableOk, N.Find;
    forall i | 0 <= i < |s.xfer| && s.xfer[i].active ensures Backed(neg', CStr(s.xfer[i].processId)) {
      FindGrows(s.neg, neg', CStr(s.xfer[i].processId));
      N.FindMeans(s.neg, CStr(s.xfer[i].processId));
    }
  }

  /** An event applied to one slot keeps ids, and never leaves AGREED but for TERMINATED. */
  lemma AppliedGrows(t: seq<N.Entry>, k: nat, e: N.Event)
    requires N.TableOk(t) && NegPrefix(t) && (e == N.Agree || e == N.Terminate || e == N.Offer)
    ensures var t' := N.Applied(t, k, e); Grows(t, t') && N.TableOk(t') && NegPrefix(t')
  {
    hide IsStored;
  }

  lemma CreatedGrows(t: seq<N.Entry>, cpid: text, ppid: text)
    requires N.TableOk(t) && NegPrefix(t) && NulFree(cpid) && NulFree(ppid)
    ensures var t' := N.Created(t, cpid, ppid); Grows(t, t') && N.TableOk(t') && NegPrefix(t')
  {
    hide IsStored, N.Occupied, NulFree;
    N.OccupiedOk(N.REQUESTED, cpid, ppid);
    assert N.Occupied(N.REQUESTED, cpid, ppid).active by { OccupiedFields(cpid, ppid); }
  }

  lemma OccupiedFields(cpid: text, ppid: text)
    ensures N.Occupied(N.REQUESTED, cpid, ppid).active
  {}

  lemma OffersKeeps(s: State, id: text, ppid: text)
    requires Invariant(s) && NulFree(id) && NulFree(ppid)
    ensures Invariant(OffersStep(s, id, ppid).0)
  {
    hide N.TableOk, X.TableOk, N.Created, N.Applied, N.FirstFree, NulFree, NegPrefix, AllBacked;
    var t := N.Created(s.neg, id, ppid);
    CreatedGrows(s.neg, id, ppid);
    AppliedGrows(t, N.FirstFree(s.neg), N.Offer);
    BackingGrows(s, N.Applied(t, N.FirstFree(s.neg), N.Offer));
  }

  lemma AgreeKeeps(s: State, id: text)
    requires Invariant(s)
    ensures Invariant(AgreeStep(s, id).0)
  {
    hide N.TableOk, X.TableOk, N.Applied, N.Find, NegPrefix, AllBacked;
    AppliedGrows(s.neg, N.Find(s.neg, id), N.Agree);
    BackingGrows(s, N.Applied(s.neg, N.Find(s.neg, id), N.Agree));
  }

  lemma TerminateKeeps(s: State, id: text)
    requires Invariant(s)
    ensures Invariant(TerminateStep(s, id).0)
  {
    hide N.TableOk, X.TableOk, N.Applied, N.Find, NegPrefix, AllBacked;
    AppliedGrows(s.neg, N.Find(s.neg, id), N.Terminate);
    BackingGrows(s, N.Applied(s.neg, N.Find(s.neg, id), N.Terminate));
  }

  /** A transfer that was started: the slot it took and what it holds. */
  lemma StartedEntry(s: State, id: text)
    requires Invariant(s) && NulFree(id) && |id| < PID_LEN && StartStep(s, id).1 == Ok200
    ensures var i := X.FirstFree(s.xfer);
            && i < |s.xfer| && !s.xfer[i].active
            && StartStep(s, id).0.neg == s.neg
            && StartStep(s, id).0.xfer == s.xfer[i := X.Occupied(X.TRANSFERRING, id)]
            && CStr(X.Occupied(X.TRANSFERRING, id).processId) == id
  {
    hide N.TableOk, X.TableOk, N.Find, Stored;
    StoredReads(id);
  }

  lemma StartKeeps(s: State, id: text)
    requires Invariant(s) && NulFree(id) && |id| < PID_LEN
    ensures Invariant(StartStep(s, id).0)
  {
    hide N.TableOk, Stored, X.EntryOk, NulFree;
    if StartStep(s, id).1 == Ok200 {
      StartedEntry(s, id);
      X.OccupiedOk(X.TRANSFERRING, id);
    }
  }

  lemma CompleteKeeps(s: State, id: text)
    requires Invariant(s)
    ensures Invariant(CompleteStep(s, id).0)
  {
    hide N.TableOk, IsStored, StrNEqual;
  }

  /** Every request keeps the invariant. */
  lemma StepKeepsInvariant(s: State, req: Request, ppid: text)
    requires Invariant(s) && NulFree(ppid)
    ensures Invariant(Step(s, req, ppid).0)
  {
    hide OffersStep, AgreeStep, TerminateStep, StartStep, CompleteStep, Invariant, NulFree;
    match req
    case Offers(_) => OffersKeeps(s, IdOf(req), ppid);
    case Agree(_) => AgreeKeeps(s, IdOf(req));
    case Terminate(_) => TerminateKeeps(s, IdOf(req));
    case Start(_) => StartKeeps(s, IdOf(req));
    case Complete(_) => CompleteKeeps(s, IdOf(req));
    case Sleep => SleepKeeps(s);
  }

  lemma SleepKeeps(s: State)
    requires Invariant(s)
    ensures Invariant(SleepStep(s))
  {
    SleepChangesNothing(s);
  }

  ghost predicate IsRun(states: seq<State>, reqs: seq<Request>, ppid: text) {
    && |states| == |reqs| + 1 && NulFree(ppid)
    && states[0].neg == N.ClearedTable(|states[0].neg|) && states[0].xfer == X.ClearedTable(|states[0].xfer|)
    && states[0].calls == []
    && forall i :: 0 <= i < |reqs| ==> states[i + 1] == Step(states[i], reqs[i], ppid).0
  }

  /**
   In every run of requests and sleeps, occupied slots form a prefix of each
   table and every transfer's id resolves to a negotiation that is AGREED or
   TERMINATED.
   */
  lemma {:induction false} InvariantHolds(states: seq<State>, reqs: seq<Request>, ppid: text, k: nat)
    requires IsRun(states, reqs, ppid) && k < |states|
    ensures Invariant(states[k])
  {
    hide Invariant, Step;
    if k > 0 {
      InvariantHolds(states, reqs, ppid, k - 1);
      StepKeepsInvariant(states[k - 1], reqs[k - 1], ppid);
      assert states[k] == Step(states[k - 1], reqs[k - 1], ppid).0;
    } else {
      StartsWell(states[0]);
    }
  }

  lemma StartsWell(s: State)
    requires s.neg == N.ClearedTable(|s.neg|) && s.xfer == X.ClearedTable(|s.xfer|)
    ensures Invariant(s)
  {
    N.ClearedTableOk(|s.neg|);
    X.ClearedTableOk(|s.xfer|);
  }

  // ---------------------------------------------------------------------
  // Each transfer is announced once
  // ---------------------------------------------------------------------

  /** With the callback registered it was called once for each transfer, and for nothing else. */
  ghost predicate Announced(s: State) {
    forall i: int :: multiset(s.calls)[i] == if s.notify && X.ActiveAt(s.xfer, i) then 1 else 0
  }

  lemma StartAnnounces(s: State, id: text)
    requires Invariant(s) && Announced(s) && NulFree(id) && |id| < PID_LEN
    ensures Announced(StartStep(s, id).0)
  {
    hide N.TableOk, X.TableOk, Stored, NulFree, N.Find, Invariant;
    if StartStep(s, id).1 == Ok200 {
      StartedEntry(s, id);
      var after := StartStep(s, id).0;
      var k := X.FirstFree(s.xfer);
      assert multiset(s.calls + [k]) == multiset(s.calls) + multiset{k};
      forall i: int ensures multiset(after.calls)[i] == if after.notify && X.ActiveAt(after.xfer, i) then 1 else 0 {
        assert multiset(s.calls)[i] == if s.notify && X.ActiveAt(s.xfer, i) then 1 else 0;
      }
    }
  }

  lemma CompleteAnnouncesNothing(s: State, id: text)
    requires Announced(s)
    ensures Announced(CompleteStep(s, id).0)
  {
    hide StrNEqual, First;
    var after := CompleteStep(s, id).0;
    forall i: int ensures multiset(after.calls)[i] == if after.notify && X.ActiveAt(after.xfer, i) then 1 else 0 {
      assert multiset(s.calls)[i] == if s.notify && X.ActiveAt(s.xfer, i) then 1 else 0;
    }
  }

  lemma StepKeepsAnnounced(s: State, req: Request, ppid: text)
    requires Invariant(s) && Announced(s)
    ensures Announced(Step(s, req, ppid).0)
  {
    hide StartStep, CompleteStep, Invariant, NulFree, IdOf;
    match req
    case Start(_) => StartAnnounces(s, IdOf(req));
    case Complete(_) => CompleteAnnouncesNothing(s, IdOf(req));
    case Sleep => SleepAnnouncesNothing(s);
    case _ =>
      NegRequestsTouchNoTransfer(s, req, ppid);
  }

  lemma SleepAnnouncesNothing(s: State)
    requires Invariant(s)
    ensures SleepStep(s) == s
  {
    SleepChangesNothing(s);
  }

  /**
   In every run of requests and sleeps with the callback registered, it has been
   called exactly once for each transfer in the table - all of them have left
   INITIAL - and for no other slot; waking up calls it for none. Unregistered,
   it has never been called.
   */
  lemma {:induction false} EachTransferAnnouncedOnce(states: seq<State>, reqs: seq<Request>, ppid: text, k: nat)
    requires IsRun(states, reqs, ppid) && k < |states|
    ensures Announced(states[k]) && states[k].notify == states[0].notify
    ensures forall i :: 0 <= i < |states[k].xfer| && states[k].xfer[i].active ==> states[k].xfer[i].state != X.INITIAL
  {
    hide Invariant, Step, Announced;
    InvariantHolds(states, reqs, ppid, k);
    AllLeftInitial(states[k]);
    if k > 0 {
      EachTransferAnnouncedOnce(states, reqs, ppid, k - 1);
      InvariantHolds(states, reqs, ppid, k - 1);
      StepKeepsAnnounced(states[k - 1], reqs[k - 1], ppid);
      RegistrationStays(states[k - 1], reqs[k - 1], ppid);
      assert states[k] == Step(states[k - 1], reqs[k - 1], ppid).0;
    } else {
      NothingAnnounced(states[0]);
    }
  }

  lemma AllLeftInitial(s: State)
    requires Invariant(s)
    ensures forall i :: 0 <= i < |s.xfer| && s.xfer[i].active ==> s.xfer[i].state != X.INITIAL
  {}

  lemma RegistrationStays(s: State, req: Request, ppid: text)
    ensures Step(s, req, ppid).0.notify == s.notify
  {
    hide IdOf, N.Find, X.Find, N.FirstFree, X.FirstFree, N.Created, X.Created, N.Applied, X.Applied;
  }

  lemma NothingAnnounced(s: State)
    requires s.calls == [] && s.xfer == X.ClearedTable(|s.xfer|)
    ensures Announced(s)
  {}

  // ---------------------------------------------------------------------
  // No transfer without an agreement
  // ---------------------------------------------------------------------

  /** Some request among the first `k` agreed to this id and was answered with success. */
  ghost predicate AgreedBefore(states: seq<State>, reqs: seq<Request>, ppid: text, k: nat, id: text)
    requires k <= |reqs| <= |states|
  {
    exists j :: 0 <= j < k && IsAgreement(states[j], reqs[j], ppid, id)
  }

  ghost predicate IsAgreement(s: State, req: Request, ppid: text, id: text) {
    req.Agree? && IdOf(req) == id && Step(s, req, ppid).1 == Ok200
  }

  predicate AgreedAt(t: seq<N.Entry>, i: nat) {
    N.ActiveAt(t, i) && t[i].state == N.AGREED
  }

  predicate AgreedWith(t: seq<N.Entry>, m: nat, id: text) {
    AgreedAt(t, m) && CStr(t[m].consumerPid) == id
  }

  /** Some agreed negotiation has this id. */
  ghost predicate Supported(t: seq<N.Entry>, id: text) {
    exists m: nat :: AgreedWith(t, m, id)
  }

  /** Agreed slots of `t'` were agreed in `t`, with the same id. */
  ghost predicate NothingAgreed(t: seq<N.Entry>, t': seq<N.Entry>) {
    forall i: nat :: AgreedAt(t', i) ==> AgreedAt(t, i) && t[i].consumerPid == t'[i].consumerPid
  }

  lemma OffersAgreesNothing(s: State, id: text, ppid: text)
    ensures NothingAgreed(s.neg, OffersStep(s, id, ppid).0.neg)
  {
    hide Stored;
  }

  lemma TerminateAgreesNothing(s: State, id: text)
    ensures NothingAgreed(s.neg, TerminateStep(s, id).0.neg)
  {
    hide N.Find;
  }

  /** An agreement request agrees at most the slot its id resolves to, and then it succeeds. */
  lemma AgreeAgrees(s: State, id: text, i: nat)
    requires N.TableOk(s.neg) && NulFree(id) && AgreedAt(AgreeStep(s, id).0.neg, i)
    ensures var t := AgreeStep(s, id).0.neg;
            (AgreedAt(s.neg, i) && s.neg[i].consumerPid == t[i].consumerPid)
            || (AgreeStep(s, id).1 == Ok200 && CStr(t[i].consumerPid) == id)
  {
    hide N.TableOk, N.Find, IsStored;
    N.FindMeans(s.neg, id);
  }

  /** A negotiation is agreed only if it was before, or by an agreement to its id. */
  lemma AgreedByRequest(s: State, req: Request, ppid: text, after: State, i: nat)
    requires Invariant(s) && after == Step(s, req, ppid).0 && AgreedAt(after.neg, i)
    ensures (AgreedAt(s.neg, i) && s.neg[i].consumerPid == after.neg[i].consumerPid)
            || IsAgreement(s, req, ppid, CStr(after.neg[i].consumerPid))
  {
    hide OffersStep, TerminateStep, AgreeStep, N.TableOk, X.TableOk, AllBacked, NegPrefix, XferPrefix, SleepStep;
    match req
    case Offers(_) => OffersAgreesNothing(s, IdOf(req), ppid);
    case Terminate(_) => TerminateAgreesNothing(s, IdOf(req));
    case Agree(_) =>
        AgreeAgrees(s, IdOf(req), i);
    case Sleep => SleepChangesNothing(s);
    case _ => TransfersTouchNoNegotiation(s, req, ppid);
  }

  lemma TransfersTouchNoNegotiation(s: State, req: Request, ppid: text)
    requires req.Start? || req.Complete?
    ensures Step(s, req, ppid).0.neg == s.neg
  {
    hide IdOf;
  }

  lemma NegRequestsTouchNoTransfer(s: State, req: Request, ppid: text)
    requires req.Offers? || req.Agree? || req.Terminate?
    ensures var after := Step(s, req, ppid).0;
            after.xfer == s.xfer && after.calls == s.calls && after.notify == s.notify
  {
    hide IdOf;
  }

  lemma StartFailsCleanly(s: State, id: text)
    ensures StartStep(s, id).1 != Ok200 ==> StartStep(s, id).0 == s
  {}

  lemma StartedFromAgreed(s: State, id: text)
    requires N.TableOk(s.neg) && NulFree(id) && StartStep(s, id).1 == Ok200
    ensures Supported(s.neg, id)
  {
    hide N.Find, N.TableOk;
    N.FindMeans(s.neg, id);
    assert AgreedWith(s.neg, N.Find(s.neg, id), id);
  }

  /** A transfer exists only if it did before, or if a negotiation for its id is agreed. */
  lemma TransferNeedsAgreed(s: State, req: Request, ppid: text, after: State, i: nat)
    requires Invariant(s) && after == Step(s, req, ppid).0 && X.ActiveAt(after.xfer, i)
    ensures (X.ActiveAt(s.xfer, i) && s.xfer[i].processId == after.xfer[i].processId)
            || Supported(s.neg, CStr(after.xfer[i].processId))
  {
    hide N.TableOk, X.TableOk, N.Find, X.Find, AllBacked, NegPrefix, XferPrefix, SleepStep, StartStep, IdOf, NulFree;
    hide OffersStep, AgreeStep, TerminateStep;
    match req
    case Offers(_) => NegRequestsTouchNoTransfer(s, req, ppid);
    case Agree(_) => NegRequestsTouchNoTransfer(s, req, ppid);
    case Terminate(_) => NegRequestsTouchNoTransfer(s, req, ppid);
    case Start(_) =>
      StartFailsCleanly(s, IdOf(req));
      if StartStep(s, IdOf(req)).1 == Ok200 {
        StartedEntry(s, IdOf(req));
        StartedFromAgreed(s, IdOf(req));
      }
    case Sleep => SleepChangesNothing(s);
    case _ =>
  }

  lemma AgreedLater(states: seq<State>, reqs: seq<Request>, ppid: text, k: nat, id: text)
    requires k < |reqs| < |states|
    requires AgreedBefore(states, reqs, ppid, k, id) || IsAgreement(states[k], reqs[k], ppid, id)
    ensures AgreedBefore(states, reqs, ppid, k + 1, id)
  {
    hide IsAgreement;
  }

  /** Every agreed negotiation was agreed to by an earlier request. */
  ghost predicate NegHistory(states: seq<State>, reqs: seq<Request>, ppid: text, k: nat)
    requires k <= |reqs| < |states|
  {
    forall i: nat :: AgreedAt(states[k].neg, i) ==>
      AgreedBefore(states, reqs, ppid, k, CStr(states[k].neg[i].consumerPid))
  }

  /** Every transfer was preceded by an agreement to its id. */
  ghost predicate XferHistory(states: seq<State>, reqs: seq<Request>, ppid: text, k: nat)
    requires k <= |reqs| < |states|
  {
    forall i: nat :: X.ActiveAt(states[k].xfer, i) ==>
      AgreedBefore(states, reqs, ppid, k, CStr(states[k].xfer[i].processId))
  }

  lemma NegHistoryGoesOn(states: seq<State>, reqs: seq<Request>, ppid: text, k: nat)
    requires k < |reqs| < |states| && NegHistory(states, reqs, ppid, k)
    requires Invariant(states[k]) && states[k + 1] == Step(states[k], reqs[k], ppid).0
    ensures NegHistory(states, reqs, ppid, k + 1)
  {
    hide Invariant, Step, AgreedBefore, IsAgreement;
    var after := states[k + 1];
    forall i: nat | AgreedAt(after.neg, i)
      ensures AgreedBefore(states, reqs, ppid, k + 1, CStr(after.neg[i].consumerPid))
    {
      AgreedByRequest(states[k], reqs[k], ppid, after, i);
      AgreedLater(states, reqs, ppid, k, CStr(after.neg[i].consumerPid));
    }
  }

  lemma XferHistoryGoesOn(states: seq<State>, reqs: seq<Request>, ppid: text, k: nat)
    requires k < |reqs| < |states| && NegHistory(states, reqs, ppid, k) && XferHistory(states, reqs, ppid, k)
    requires Invariant(states[k]) && states[k + 1] == Step(states[k], reqs[k], ppid).0
    ensures XferHistory(states, reqs, ppid, k + 1)
  {
    hide Invariant, Step, AgreedBefore, IsAgreement;
    var after := states[k + 1];
    forall i: nat | X.ActiveAt(after.xfer, i)
      ensures AgreedBefore(states, reqs, ppid, k + 1, CStr(after.xfer[i].processId))
    {
      TransferNeedsAgreed(states[k], reqs[k], ppid, after, i);
      AgreedLater(states, reqs, ppid, k, CStr(after.xfer[i].processId));
    }
  }

  /**
   In every run, each negotiation that is agreed and each transfer that exists
   was preceded by a successful agreement request for its id.
   */
  lemma {:induction false} AgreementComesFirst(states: seq<State>, reqs: seq<Request>, ppid: text, k: nat)
    requires IsRun(states, reqs, ppid) && k < |states|
    ensures NegHistory(states, reqs, ppid, k) && XferHistory(states, reqs, ppid, k)
  {
    if k > 0 {
      hide Invariant, Step, NegHistory, XferHistory;
      AgreementComesFirst(states, reqs, ppid, k - 1);
      InvariantHolds(states, reqs, ppid, k - 1);
      NegHistoryGoesOn(states, reqs, ppid, k - 1);
      XferHistoryGoesOn(states, reqs, ppid, k - 1);
    }
  }
}
