/**
 Contract negotiations (components/dsp_neg/dsp_neg.c): the state machine of one
 negotiation and the table of slots that holds them.
 */
module Negotiation {
  import opened CText
  import opened EspIdf
  import opened Slots

  type state = bv32

  const INITIAL: state := 0
  const REQUESTED: state := 1
  const OFFERED: state := 2
  const AGREED: state := 3
  const VERIFIED: state := 4
  const FINALIZED: state := 5
  const TERMINATED: state := 6

  /** The events of the enumeration, and any other value the type can hold. */
  datatype Event = Offer | Agree | Verify | Finalize | Terminate | Unknown

  // ---------------------------------------------------------------------
  // The state machine
  // ---------------------------------------------------------------------

  function SmNext(s: state, e: Event): state {
    if s == REQUESTED then
      match e
      case Offer => OFFERED
      case Agree => AGREED
      case Terminate => TERMINATED
      case _ => REQUESTED
    else if s == OFFERED then
      match e
      case Agree => AGREED
      case Terminate => TERMINATED
      case _ => OFFERED
    else if s == AGREED then
      match e
      case Verify => VERIFIED
      case Terminate => TERMINATED
      case _ => AGREED
    else if s == VERIFIED then
      match e
      case Finalize => FINALIZED
      case Terminate => TERMINATED
      case _ => VERIFIED
    else s
  }

  function RunFrom(s: state, es: seq<Event>): state
    decreases |es|
  {
    if es == [] then s else RunFrom(SmNext(s, es[0]), es[1..])
  }

  /** How often a run changes the state. */
  function Changes(s: state, es: seq<Event>): nat
    decreases |es|
  {
    if es == [] then 0
    else (if SmNext(s, es[0]) != s then 1 else 0) + Changes(SmNext(s, es[0]), es[1..])
  }

  /** The changes a state still allows. */
  function ChangesLeft(s: state): nat {
    if s == REQUESTED then 4 else if s == OFFERED then 3 else if s == AGREED then 2 else if s == VERIFIED then 1 else 0
  }

  /** A created negotiation changes state at most four times; a terminal one never again. */
  lemma {:induction false} FewChanges(s: state, es: seq<Event>)
    ensures Changes(s, es) <= ChangesLeft(s)
    ensures ChangesLeft(s) == 0 ==> RunFrom(s, es) == s
    decreases |es|
  {
    if es != [] {
      FewChanges(SmNext(s, es[0]), es[1..]);
    }
  }

  /** Four changes do occur, so the bound is the best possible. */
  lemma FourChangesOccur()
    ensures Changes(REQUESTED, [Offer, Agree, Verify, Finalize]) == 4
  {
    var es := [Offer, Agree, Verify, Finalize];
    assert es[1..] == [Agree, Verify, Finalize] && es[1..][1..] == [Verify, Finalize];
    assert Changes(VERIFIED, [Finalize]) == 1;
  }

  /** `at` are positions in `es` of the given events, in increasing order. */
  ghost predicate InOrder(events: seq<Event>, es: seq<Event>, at: seq<nat>) {
    && |at| == |events|
    && (forall i :: 0 <= i < |at| ==> at[i] < |es| && es[at[i]] == events[i])
    && (forall i, j :: 0 <= i < j < |at| ==> at[i] < at[j])
  }

  /** The events occur in that order, and no termination comes before the last of them. */
  ghost predicate Reached(events: seq<Event>, es: seq<Event>, at: seq<nat>) {
    && |events| > 0 && InOrder(events, es, at)
    && forall i :: 0 <= i < at[|at| - 1] ==> es[i] != Terminate
  }

  // ---------------------------------------------------------------------
  // The state after any events
  // ---------------------------------------------------------------------

  /** The first `k` of agreement, verification and finalisation occurred in order, before any termination. */
  ghost predicate Done(es: seq<Event>, k: nat)
    requires 1 <= k <= 3
  {
    exists at :: Reached([Agree, Verify, Finalize][..k], es, at)
  }

  /** A termination came before the negotiation was finalized. */
  ghost predicate Ended(es: seq<Event>) {
    exists i :: 0 <= i < |es| && es[i] == Terminate && !Done(es[..i], 3)
  }

  lemma {:induction false} RunSnoc(s: state, es: seq<Event>, e: Event)
    ensures RunFrom(s, es + [e]) == SmNext(RunFrom(s, es), e)
    decreases |es|
  {
    hide SmNext;
    if es == [] {
      assert ([] + [e])[1..] == [];
    } else {
      assert (es + [e])[1..] == es[1..] + [e];
      RunSnoc(SmNext(s, es[0]), es[1..], e);
    }
  }

  lemma DoneBefore(es: seq<Event>, k: nat)
    requires 1 < k <= 3 && Done(es, k)
    ensures Done(es, k - 1)
  {
    var all := [Agree, Verify, Finalize];
    var at :| Reached(all[..k], es, at);
    var front := at[..k - 1];
    assert forall i :: 0 <= i < k - 1 ==> front[i] == at[i] && all[..k - 1][i] == all[..k][i];
    assert Reached(all[..k - 1], es, front);
  }

  /** One more event reaches a milestone if it is the one awaited and nothing was terminated. */
  lemma DoneSnoc(es: seq<Event>, e: Event, k: nat)
    requires 1 <= k <= 3
    ensures Done(es + [e], k) <==>
            Done(es, k) || (e == [Agree, Verify, Finalize][k - 1] && Terminate !in es && (k > 1 ==> Done(es, k - 1)))
  {
    hide Done;
    if Done(es, k) { DoneStays(es, e, k); }
    if e == [Agree, Verify, Finalize][k - 1] && Terminate !in es && (k > 1 ==> Done(es, k - 1)) { DoneNow(es, e, k); }
    if Done(es + [e], k) { DoneSplit(es, e, k); }
  }

  lemma DoneStays(es: seq<Event>, e: Event, k: nat)
    requires 1 <= k <= 3 && Done(es, k)
    ensures Done(es + [e], k)
  {
    var events := [Agree, Verify, Finalize][..k];
    var at :| Reached(events, es, at);
    assert forall i :: 0 <= i < |es| ==> (es + [e])[i] == es[i];
    assert Reached(events, es + [e], at);
  }

  lemma DoneNow(es: seq<Event>, e: Event, k: nat)
    requires 1 <= k <= 3 && e == [Agree, Verify, Finalize][k - 1] && Terminate !in es && (k > 1 ==> Done(es, k - 1))
    ensures Done(es + [e], k)
  {
    var all, now := [Agree, Verify, Finalize], es + [e];
    var front: seq<nat> := [];
    if k > 1 {
      var at: seq<nat> :| Reached(all[..k - 1], es, at);
      front := at;
    }
    var at := front + [|es|];
    forall i | 0 <= i < |at| ensures at[i] < |now| && now[at[i]] == all[..k][i] {
      if i < k - 1 {
        assert es[front[i]] == all[..k - 1][i];
      }
    }
    assert Reached(all[..k], now, at);
  }

  lemma DoneSplit(es: seq<Event>, e: Event, k: nat)
    requires 1 <= k <= 3 && Done(es + [e], k)
    ensures Done(es, k) || (e == [Agree, Verify, Finalize][k - 1] && Terminate !in es && (k > 1 ==> Done(es, k - 1)))
  {
    var all, now := [Agree, Verify, Finalize], es + [e];
    var at :| Reached(all[..k], now, at);
    assert forall i :: 0 <= i < |es| ==> now[i] == es[i];
    if at[k - 1] < |es| {
      assert forall i :: 0 <= i < k ==> at[i] <= at[k - 1];
      assert Reached(all[..k], es, at);
    } else {
      var front := at[..k - 1];
      assert forall i :: 0 <= i < k - 1 ==> front[i] == at[i] < |es| && all[..k - 1][i] == all[..k][i];
      assert now[at[k - 1]] == all[..k][k - 1];
      if k > 1 {
        assert Reached(all[..k - 1], es, front);
      }
    }
  }

  lemma EndedSnoc(es: seq<Event>, e: Event)
    ensures Ended(es + [e]) <==> Ended(es) || (e == Terminate && !Done(es, 3))
  {
    hide Done;
    var now := es + [e];
    assert now[..|es|] == es;
    assert forall i :: 0 <= i < |es| ==> now[i] == es[i] && now[..i] == es[..i];
    if Ended(now) {
      var i :| 0 <= i < |now| && now[i] == Terminate && !Done(now[..i], 3);
      assert i < |es| ==> es[i] == Terminate && !Done(es[..i], 3);
    }
    if Ended(es) {
      var i :| 0 <= i < |es| && es[i] == Terminate && !Done(es[..i], 3);
      assert now[i] == Terminate && !Done(now[..i], 3);
    }
    if e == Terminate && !Done(es, 3) {
      assert now[|es|] == Terminate && !Done(now[..|es|], 3);
    }
  }

  /** Where nothing was finalized, any termination ended the negotiation. */
  lemma {:induction false} EndedIfTerminated(es: seq<Event>)
    requires !Done(es, 3)
    ensures Ended(es) <==> Terminate in es
  {
    hide Done;
    if es != [] {
      var n := |es| - 1;
      assert es == es[..n] + [es[n]];
      DoneSnoc(es[..n], es[n], 3);
      EndedSnoc(es[..n], es[n]);
      EndedIfTerminated(es[..n]);
    }
  }

  /** What the events of a created negotiation amount to. */
  ghost function Outcome(es: seq<Event>): state {
    if Ended(es) then TERMINATED
    else if Done(es, 3) then FINALIZED
    else if Done(es, 2) then VERIFIED
    else if Done(es, 1) then AGREED
    else if Offer in es then OFFERED
    else REQUESTED
  }

  lemma OutcomeSnoc(es: seq<Event>, e: Event)
    ensures Outcome(es + [e]) == SmNext(Outcome(es), e)
  {
    hide Done, Ended;
    DoneSnoc(es, e, 1);
    DoneSnoc(es, e, 2);
    DoneSnoc(es, e, 3);
    EndedSnoc(es, e);
    if Done(es, 3) { DoneBefore(es, 3); }
    if Done(es, 2) { DoneBefore(es, 2); }
    if !Done(es, 3) { EndedIfTerminated(es); }
  }

  /**
   The state of a created negotiation after any events: TERMINATED if it was
   terminated before it was finalized, and otherwise what the milestones that
   were reached in order say.
   */
  lemma {:induction false} StateIsOutcome(es: seq<Event>)
    ensures RunFrom(REQUESTED, es) == Outcome(es)
  {
    hide SmNext;
    if es == [] {
      NothingOccurred();
    } else {
      var n := |es| - 1;
      assert es == es[..n] + [es[n]];
      StateIsOutcome(es[..n]);
      RunSnoc(REQUESTED, es[..n], es[n]);
      OutcomeSnoc(es[..n], es[n]);
    }
  }

  lemma NothingOccurred()
    ensures Outcome([]) == REQUESTED
  {
    hide Reached;
    forall k, at: seq<nat> | 1 <= k <= 3 ensures !Reached([Agree, Verify, Finalize][..k], [], at) {
      NoneReached([Agree, Verify, Finalize][..k], at);
    }
  }

  lemma NoneReached(events: seq<Event>, at: seq<nat>)
    ensures !Reached(events, [], at)
  {
    assert |at| > 0 ==> at[0] >= 0;
  }

  /** What was finalized was not terminated before. */
  lemma DoneNotEnded(es: seq<Event>)
    requires Done(es, 3)
    ensures !Ended(es)
  {
    var events := [Agree, Verify, Finalize][..3];
    var at :| Reached(events, es, at);
    forall i | 0 <= i < |es| && es[i] == Terminate ensures Done(es[..i], 3) {
      assert es[at[2]] == Finalize && at[0] < at[1] < at[2];
      assert Reached(events, es[..i], at);
    }
  }

  /**
   A created negotiation ends finalized exactly when an agreement, a
   verification and a finalisation occurred in that order with no termination
   before the last of them.
   */
  lemma FinalizedIff(es: seq<Event>)
    ensures RunFrom(REQUESTED, es) == FINALIZED <==> exists at :: Reached([Agree, Verify, Finalize], es, at)
  {
    hide Reached;
    assert [Agree, Verify, Finalize][..3] == [Agree, Verify, Finalize];
    StateIsOutcome(es);
    if Done(es, 3) {
      DoneNotEnded(es);
    }
  }

  /** Termination terminates: exactly when a termination occurs before the negotiation is finalized. */
  lemma TerminatedIff(es: seq<Event>)
    ensures RunFrom(REQUESTED, es) == TERMINATED <==>
            exists i :: 0 <= i < |es| && es[i] == Terminate
                        && !exists at :: Reached([Agree, Verify, Finalize], es[..i], at)
  {
    hide Reached;
    assert [Agree, Verify, Finalize][..3] == [Agree, Verify, Finalize];
    StateIsOutcome(es);
  }

  // ---------------------------------------------------------------------
  // Slots
  // ---------------------------------------------------------------------

  datatype Entry = Entry(state: state, consumerPid: text, providerPid: text, active: bool)

  /** A slot after memset. */
  function Cleared(): Entry {
    Entry(INITIAL, Zeros(PID_LEN), Zeros(PID_LEN), false)
  }

  function ClearedTable(n: nat): (t: seq<Entry>)
    ensures |t| == n
  {
    seq(n, _ => Cleared())
  }

  /** Free slots are all zero; the others hold ids that were stored. */
  ghost predicate EntryOk(e: Entry) {
    && (!e.active ==> e == Cleared())
    && IsStored(e.consumerPid) && IsStored(e.providerPid)
  }

  ghost predicate TableOk(t: seq<Entry>) {
    forall i :: 0 <= i < |t| ==> EntryOk(t[i])
  }

  lemma ClearedTableOk(n: nat)
    ensures TableOk(ClearedTable(n))
  {
    EmptyIsStored();
  }

  function FirstFree(t: seq<Entry>): (k: nat)
    ensures k <= |t|
  {
    First(t, (e: Entry) => !e.active)
  }

  /** The lowest active slot whose consumer id compares equal. */
  function Find(t: seq<Entry>, cpid: text): (k: nat)
    ensures k <= |t|
  {
    First(t, (e: Entry) => e.active && StrNEqual(e.consumerPid, cpid, PID_LEN, 0))
  }

  function Active(t: seq<Entry>): nat {
    Count(t, (e: Entry) => e.active)
  }

  predicate ActiveAt(t: seq<Entry>, idx: int) {
    0 <= idx < |t| && t[idx].active
  }

  function Occupied(s: state, cpid: text, ppid: text): Entry {
    Entry(s, Stored(cpid), Stored(ppid), true)
  }

  function Created(t: seq<Entry>, cpid: text, ppid: text): (r: seq<Entry>)
    ensures |r| == |t|
  {
    var k := FirstFree(t);
    if k < |t| then t[k := Occupied(REQUESTED, cpid, ppid)] else t
  }

  function Applied(t: seq<Entry>, idx: int, e: Event): (r: seq<Entry>)
    ensures |r| == |t|
  {
    if ActiveAt(t, idx) then t[idx := t[idx].(state := SmNext(t[idx].state, e))] else t
  }

  function AppliedAll(t: seq<Entry>, idx: int, es: seq<Event>): seq<Entry>
    decreases |es|
  {
    if es == [] then t else AppliedAll(Applied(t, idx, es[0]), idx, es[1..])
  }

  /** Events applied to an active slot run its state machine and touch nothing else. */
  lemma {:induction false} SlotRuns(t: seq<Entry>, idx: nat, es: seq<Event>)
    requires ActiveAt(t, idx)
    ensures AppliedAll(t, idx, es) == t[idx := t[idx].(state := RunFrom(t[idx].state, es))]
    decreases |es|
  {
    if es != [] {
      SlotRuns(Applied(t, idx, es[0]), idx, es[1..]);
    }
  }

  /** What looking up an id means: the lowest active slot that holds exactly this id. */
  lemma FindMeans(t: seq<Entry>, cpid: text)
    requires TableOk(t) && NulFree(cpid)
    ensures var k := Find(t, cpid);
            && (k < |t| ==> t[k].active && CStr(t[k].consumerPid) == cpid)
            && forall j :: 0 <= j < k ==> !(t[j].active && CStr(t[j].consumerPid) == cpid)
  {
    forall j | 0 <= j < |t| ensures StrNEqual(t[j].consumerPid, cpid, PID_LEN, 0) <==> CStr(t[j].consumerPid) == cpid {
      assert EntryOk(t[j]);
      SamePid(t[j].consumerPid, cpid);
    }
  }

  lemma FindIs(t: seq<Entry>, cpid: text, k: nat)
    requires TableOk(t) && NulFree(cpid) && k <= |t|
    requires k < |t| ==> t[k].active && CStr(t[k].consumerPid) == cpid
    requires forall j :: 0 <= j < k ==> !(t[j].active && CStr(t[j].consumerPid) == cpid)
    ensures Find(t, cpid) == k
  {
    FindMeans(t, cpid);
  }

  lemma OccupiedOk(s: state, cpid: text, ppid: text)
    requires NulFree(cpid) && NulFree(ppid)
    ensures EntryOk(Occupied(s, cpid, ppid))
  {
    StoredIsStored(cpid);
    StoredIsStored(ppid);
  }

  class Table {
    const slots: array<Entry>
    var initialized: bool

    ghost predicate Valid()
      reads this, slots
    {
      TableOk(slots[..])
    }

    /** Static storage starts zeroed and uninitialised. */
    constructor (size: nat)
      ensures Valid() && !initialized && fresh(slots)
      ensures slots[..] == ClearedTable(size)
    {
      slots := new Entry[size](_ => Cleared());
      initialized := false;
      new;
      assert slots[..] == ClearedTable(size);
      ClearedTableOk(size);
    }

    method Clear()
      modifies slots
      ensures Valid() && slots[..] == ClearedTable(slots.Length)
    {
      forall i | 0 <= i < slots.Length {
        slots[i] := Cleared();
      }
      assert slots[..] == ClearedTable(slots.Length);
      ClearedTableOk(slots.Length);
    }

    method Init() returns (r: EspErr)
      requires Valid()
      modifies this`initialized, slots
      ensures Valid() && r == Ok && initialized
      ensures slots[..] == if old(initialized) then old(slots[..]) else ClearedTable(slots.Length)
    {
      if !initialized {
        Clear();
        initialized := true;
      }
      return Ok;
    }

    method Deinit()
      modifies this`initialized, slots
      ensures Valid() && !initialized && slots[..] == ClearedTable(slots.Length)
    {
      Clear();
      initialized := false;
    }

    /** Fills one slot field by field; nothing of its old contents survives. */
    method Occupy(i: nat, s: state, cpid: text, ppid: text)
      requires Valid() && i < slots.Length && NulFree(cpid) && NulFree(ppid)
      modifies slots
      ensures Valid() && slots[..] == old(slots[..])[i := Occupied(s, cpid, ppid)]
    {
      hide Store, Stored, CStr;
      assert EntryOk(slots[i]);
      StoreIsStored(slots[i].consumerPid, cpid);
      StoreIsStored(slots[i].providerPid, ppid);
      OccupiedOk(s, cpid, ppid);
      slots[i] := slots[i].(active := true);
      slots[i] := slots[i].(state := s);
      slots[i] := slots[i].(consumerPid := Store(slots[i].consumerPid, cpid));
      slots[i] := slots[i].(providerPid := Store(slots[i].providerPid, ppid));
    }

    method Create(cpid: Option<text>, ppid: Option<text>) returns (idx: int)
      requires Valid()
      requires (cpid.Some? ==> NulFree(cpid.value)) && (ppid.Some? ==> NulFree(ppid.value))
      modifies slots
      ensures Valid()
      ensures idx == if cpid.Some? && ppid.Some? && FirstFree(old(slots[..])) < slots.Length
                     then FirstFree(old(slots[..]))
                     else -1
      ensures slots[..] == if cpid.Some? && ppid.Some?
                           then Created(old(slots[..]), cpid.value, ppid.value)
                           else old(slots[..])
    {
      hide First, TableOk, Stored;
      if cpid == None || ppid == None {
        return -1;
      }
      for i := 0 to slots.Length
        invariant Valid() && slots[..] == old(slots[..])
        invariant forall j :: 0 <= j < i ==> slots[j].active
      {
        if !slots[i].active {
          FirstIs(slots[..], (e: Entry) => !e.active, i);
          Occupy(i, REQUESTED, cpid.value, ppid.value);
          return i;
        }
      }
      FirstIs(slots[..], (e: Entry) => !e.active, slots.Length);
      return -1;
    }

    method Apply(idx: int, e: Event) returns (s: state)
      requires Valid()
      modifies slots
      ensures Valid() && slots[..] == Applied(old(slots[..]), idx, e)
      ensures s == if ActiveAt(slots[..], idx) then slots[idx].state else INITIAL
    {
      if idx < 0 || idx >= slots.Length || !slots[idx].active {
        return INITIAL;
      }
      assert EntryOk(slots[idx]);
      slots[idx] := slots[idx].(state := SmNext(slots[idx].state, e));
      return slots[idx].state;
    }

    method GetState(idx: int) returns (s: state)
      ensures s == if ActiveAt(slots[..], idx) then slots[idx].state else INITIAL
    {
      if idx < 0 || idx >= slots.Length || !slots[idx].active {
        return INITIAL;
      }
      return slots[idx].state;
    }

    method GetConsumerPid(idx: int) returns (pid: Option<text>)
      ensures pid == if ActiveAt(slots[..], idx) then Some(CStr(slots[idx].consumerPid)) else None
    {
      if idx < 0 || idx >= slots.Length || !slots[idx].active {
        return None;
      }
      return Some(CStr(slots[idx].consumerPid));
    }

    method GetProviderPid(idx: int) returns (pid: Option<text>)
      ensures pid == if ActiveAt(slots[..], idx) then Some(CStr(slots[idx].providerPid)) else None
    {
      if idx < 0 || idx >= slots.Length || !slots[idx].active {
        return None;
      }
      return Some(CStr(slots[idx].providerPid));
    }

    method FindByCpid(cpid: Option<text>) returns (idx: int)
      requires Valid() && (cpid.Some? ==> NulFree(cpid.value))
      ensures idx == if cpid.Some? && Find(slots[..], cpid.value) < slots.Length
                     then Find(slots[..], cpid.value)
                     else -1
    {
      hide StrNEqual, First, TableOk;
      if cpid == None {
        return -1;
      }
      ghost var matching := (e: Entry) => e.active && StrNEqual(e.consumerPid, cpid.value, PID_LEN, 0);
      for i := 0 to slots.Length
        invariant forall j :: 0 <= j < i ==> !matching(slots[j])
      {
        if slots[i].active && StrNEqual(slots[i].consumerPid, cpid.value, PID_LEN, 0) {
          FirstIs(slots[..], matching, i);
          return i;
        }
      }
      FirstIs(slots[..], matching, slots.Length);
      return -1;
    }

    method CountActive() returns (n: nat)
      ensures n == Active(slots[..])
    {
      n := 0;
      for i := 0 to slots.Length
        invariant n == Active(slots[..i])
      {
        assert slots[..i + 1][..i] == slots[..i];
        if slots[i].active {
          n := n + 1;
        }
      }
      assert slots[..slots.Length] == slots[..];
    }

    method IsActive(idx: int) returns (r: bool)
      ensures r == ActiveAt(slots[..], idx)
    {
      if idx < 0 || idx >= slots.Length {
        return false;
      }
      return slots[idx].active;
    }

    /** Fills a slot from saved state, past the state machine. */
    method LoadSlot(idx: int, s: state, cpid: Option<text>, ppid: Option<text>) returns (r: EspErr)
      requires Valid()
      requires (cpid.Some? ==> NulFree(cpid.value)) && (ppid.Some? ==> NulFree(ppid.value))
      modifies slots
      ensures Valid()
      ensures r == if !(0 <= idx < slots.Length) || cpid == None || ppid == None then InvalidArg
                   else if !initialized then InvalidState else Ok
      ensures slots[..] == if r == Ok
                           then old(slots[..])[idx := Occupied(s, cpid.value, ppid.value)]
                           else old(slots[..])
    {
      if idx < 0 || idx >= slots.Length || cpid == None || ppid == None {
        return InvalidArg;
      }
      if !initialized {
        return InvalidState;
      }
      Occupy(idx, s, cpid.value, ppid.value);
      return Ok;
    }
  }
}
