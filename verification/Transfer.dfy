/**
 Data transfers (components/dsp_xfer/dsp_xfer.c): the state machine of one
 transfer, the table of slots, and the rule for the notification callback.
 */
module Transfer {
  import opened CText
  import opened EspIdf
  import opened Slots

  type state = bv32

  const INITIAL: state := 0
  const TRANSFERRING: state := 1
  const COMPLETED: state := 2
  const FAILED: state := 3

  /** The events of the enumeration, and any other value the type can hold. */
  datatype Event = Start | Complete | Fail | Unknown

  function SmNext(s: state, e: Event): state {
    if s == INITIAL then
      if e == Start then TRANSFERRING else INITIAL
    else if s == TRANSFERRING then
      match e
      case Complete => COMPLETED
      case Fail => FAILED
      case _ => TRANSFERRING
    else s
  }

  function RunFrom(s: state, es: seq<Event>): state
    decreases |es|
  {
    if es == [] then s else RunFrom(SmNext(s, es[0]), es[1..])
  }

  predicate Ends(e: Event) {
    e == Complete || e == Fail
  }

  /** `e` is the first event at or behind `from` that can end a started transfer, and it stands at `j`. */
  ghost predicate FirstEnd(es: seq<Event>, from: nat, j: nat, e: Event) {
    from <= j < |es| && es[j] == e && Ends(e) && forall k :: from <= k < j ==> !Ends(es[k])
  }

  /** The first start stands at `i`. */
  ghost predicate FirstStart(es: seq<Event>, i: nat) {
    i < |es| && es[i] == Start && forall k :: 0 <= k < i ==> es[k] != Start
  }

  function OutcomeOf(e: Event): state
    requires Ends(e)
  {
    if e == Complete then COMPLETED else FAILED
  }

  /** COMPLETED and FAILED absorb every sequence of events, and so does any value that is no state. */
  lemma {:induction false} TerminalAbsorbs(s: state, es: seq<Event>)
    requires s != INITIAL && s != TRANSFERRING
    ensures RunFrom(s, es) == s
    decreases |es|
  {
    if es != [] { TerminalAbsorbs(s, es[1..]); }
  }

  lemma {:induction false} StartedEnds(es: seq<Event>, e: Event)
    requires Ends(e)
    ensures RunFrom(TRANSFERRING, es) == OutcomeOf(e) <==> exists j: nat :: FirstEnd(es, 0, j, e)
    decreases |es|
  {
    if es != [] {
      var tail := es[1..];
      if Ends(es[0]) {
        TerminalAbsorbs(SmNext(TRANSFERRING, es[0]), tail);
        assert es[0] == e ==> FirstEnd(es, 0, 0, e);
      } else {
        StartedEnds(tail, e);
        if j: nat :| FirstEnd(tail, 0, j, e) {
          assert forall k :: 0 < k < |es| ==> es[k] == tail[k - 1];
          assert FirstEnd(es, 0, j + 1, e);
        }
        if j: nat :| FirstEnd(es, 0, j, e) {
          assert forall k :: 0 <= k < |tail| ==> tail[k] == es[k + 1];
          assert FirstEnd(tail, 0, j - 1, e);
        }
      }
    }
  }

  /**
   A created transfer ends COMPLETED, or FAILED, exactly when a start occurred
   and the first completion or failure behind the first start was a
   completion, or a failure. What comes before the start or after the end does
   not matter.
   */
  lemma {:induction false} EndsIff(es: seq<Event>, e: Event)
    requires Ends(e)
    ensures RunFrom(INITIAL, es) == OutcomeOf(e) <==>
            exists i: nat, j: nat :: FirstStart(es, i) && FirstEnd(es, i, j, e)
    decreases |es|
  {
    if es != [] {
      var tail := es[1..];
      assert forall k :: 0 < k < |es| ==> es[k] == tail[k - 1];
      assert forall k :: 0 <= k < |tail| ==> tail[k] == es[k + 1];
      if es[0] == Start {
        StartedEnds(tail, e);
        assert FirstStart(es, 0);
        if j: nat :| FirstEnd(tail, 0, j, e) {
          assert FirstEnd(es, 0, j + 1, e);
        }
        if i: nat, j: nat :| FirstStart(es, i) && FirstEnd(es, i, j, e) {
          assert FirstEnd(tail, 0, j - 1, e);
        }
      } else {
        EndsIff(tail, e);
        if i: nat, j: nat :| FirstStart(tail, i) && FirstEnd(tail, i, j, e) {
          assert FirstStart(es, i + 1) && FirstEnd(es, i + 1, j + 1, e);
        }
        if i: nat, j: nat :| FirstStart(es, i) && FirstEnd(es, i, j, e) {
          assert FirstStart(tail, i - 1) && FirstEnd(tail, i - 1, j - 1, e);
        }
      }
    }
  }

  /** A created transfer stays INITIAL exactly as long as no start occurs, and knows no states but the four. */
  lemma {:induction false} InitialIff(es: seq<Event>)
    ensures RunFrom(INITIAL, es) == INITIAL <==> Start !in es
    ensures RunFrom(INITIAL, es) <= FAILED
    decreases |es|
  {
    if es != [] {
      if es[0] == Start {
        NeverBack(es[1..]);
      } else {
        InitialIff(es[1..]);
      }
    }
  }

  lemma {:induction false} NeverBack(es: seq<Event>)
    ensures INITIAL != RunFrom(TRANSFERRING, es) <= FAILED
    decreases |es|
  {
    if es != [] {
      if Ends(es[0]) {
        TerminalAbsorbs(SmNext(TRANSFERRING, es[0]), es[1..]);
      } else {
        NeverBack(es[1..]);
      }
    }
  }

  // ---------------------------------------------------------------------
  // Slots
  // ---------------------------------------------------------------------

  datatype Entry = Entry(state: state, processId: text, active: bool)

  /** A slot after memset. */
  function Cleared(): Entry {
    Entry(INITIAL, Zeros(PID_LEN), false)
  }

  function ClearedTable(n: nat): (t: seq<Entry>)
    ensures |t| == n
  {
    seq(n, _ => Cleared())
  }

  /** Free slots are all zero; the others hold an id that was stored. */
  ghost predicate EntryOk(e: Entry) {
    && (!e.active ==> e == Cleared())
    && IsStored(e.processId)
  }

  ghost predicate TableOk(t: seq<Entry>) {
    forall i :: 0 <= i < |t| ==> EntryOk(t[i])
  }

  lemma ClearedTableOk(n: nat)
    ensures TableOk(ClearedTable(n))
  {
    EmptyIsStored();
  }

  function FirstFree(t: seq<Entry>): (k: nat)
    ensures k <= |t|
  {
    First(t, (e: Entry) => !e.active)
  }

  /** The lowest active slot whose id compares equal. */
  function Find(t: seq<Entry>, pid: text): (k: nat)
    ensures k <= |t|
  {
    First(t, (e: Entry) => e.active && StrNEqual(e.processId, pid, PID_LEN, 0))
  }

  predicate ActiveAt(t: seq<Entry>, idx: int) {
    0 <= idx < |t| && t[idx].active
  }

  function Occupied(s: state, pid: text): Entry {
    Entry(s, Stored(pid), true)
  }

  function Created(t: seq<Entry>, pid: text): (r: seq<Entry>)
    ensures |r| == |t|
  {
    var k := FirstFree(t);
    if k < |t| then t[k := Occupied(INITIAL, pid)] else t
  }

  function Applied(t: seq<Entry>, idx: int, e: Event): (r: seq<Entry>)
    ensures |r| == |t|
  {
    if ActiveAt(t, idx) then t[idx := t[idx].(state := SmNext(t[idx].state, e))] else t
  }

  /** An event that takes its slot into TRANSFERRING from another state. */
  predicate Enters(t: seq<Entry>, idx: int, e: Event) {
    ActiveAt(t, idx) && t[idx].state != TRANSFERRING && SmNext(t[idx].state, e) == TRANSFERRING
  }

  /** What looking up an id means: the lowest active slot that holds exactly this id. */
  lemma FindMeans(t: seq<Entry>, pid: text)
    requires TableOk(t) && NulFree(pid)
    ensures var k := Find(t, pid);
            && (k < |t| ==> t[k].active && CStr(t[k].processId) == pid)
            && forall j :: 0 <= j < k ==> !(t[j].active && CStr(t[j].processId) == pid)
  {
    forall j | 0 <= j < |t| ensures StrNEqual(t[j].processId, pid, PID_LEN, 0) <==> CStr(t[j].processId) == pid {
      assert EntryOk(t[j]);
      SamePid(t[j].processId, pid);
    }
  }

  lemma OccupiedOk(s: state, pid: text)
    requires NulFree(pid)
    ensures EntryOk(Occupied(s, pid))
  {
    StoredIsStored(pid);
  }

  // ---------------------------------------------------------------------
  // What the callback has been told
  // ---------------------------------------------------------------------

  /**
   The table with a record of its past: whether the callback is registered,
   the slot numbers it was called with so far, and for each slot the state it
   was last filled with and how many calls there had been by then.
   */
  datatype History = History(table: seq<Entry>, notify: bool, calls: seq<int>, filled: seq<state>, since: seq<nat>)

  ghost predicate Recorded(h: History) {
    && |h.filled| == |h.since| == |h.table|
    && forall i :: 0 <= i < |h.since| ==> h.since[i] <= |h.calls|
  }

  /** The operations that change the table or the registration. */
  datatype Op =
    | Register(on: bool) | Clear | Create(pid: text) | Apply(idx: int, e: Event) | Load(at: nat, s: state, id: text)

  ghost predicate Enabled(h: History, op: Op) {
    Recorded(h) && (op.Load? ==> op.at < |h.table|)
  }

  ghost function Filled(h: History, k: nat, s: state, pid: text): (r: History)
    requires Recorded(h) && k < |h.table|
    ensures Recorded(r)
  {
    h.(table := h.table[k := Occupied(s, pid)], filled := h.filled[k := s], since := h.since[k := |h.calls|])
  }

  ghost function Step(h: History, op: Op): (r: History)
    requires Enabled(h, op)
    ensures Recorded(r) && |r.table| == |h.table|
  {
    match op
    case Register(on) => h.(notify := on)
    case Clear => h.(table := ClearedTable(|h.table|))
    case Create(pid) =>
      var k := FirstFree(h.table);
      if k < |h.table| then Filled(h, k, INITIAL, pid) else h
    case Apply(idx, e) =>
      h.(table := Applied(h.table, idx, e),
         calls := if h.notify && Enters(h.table, idx, e) then h.calls + [idx] else h.calls)
    case Load(i, s, id) => Filled(h, i, s, id)
  }

  class Table {
    const slots: array<Entry>
    var initialized: bool
    var notify: bool
    ghost var calls: seq<int>
    ghost var filled: seq<state>
    ghost var since: seq<nat>

    ghost predicate Valid()
      reads this, slots
    {
      TableOk(slots[..]) && Recorded(Now())
    }

    ghost function Now(): History
      reads this, slots
    {
      History(slots[..], notify, calls, filled, since)
    }

    /** Static storage starts zeroed and uninitialised, without a callback. */
    constructor (size: nat)
      ensures Valid() && !initialized && !notify && calls == [] && fresh(slots)
      ensures slots[..] == ClearedTable(size)
    {
      slots := new Entry[size](_ => Cleared());
      initialized, notify, calls := false, false, [];
      filled, since := seq(size, _ => INITIAL), seq(size, _ => 0);
      new;
      assert slots[..] == ClearedTable(size);
      ClearedTableOk(size);
    }

    method ClearSlots()
      requires Valid()
      modifies slots
      ensures Valid() && Now() == Step(old(Now()), Op.Clear)
    {
      forall i | 0 <= i < slots.Length {
        slots[i] := Cleared();
      }
      assert slots[..] == ClearedTable(slots.Length);
      ClearedTableOk(slots.Length);
    }

    method Init() returns (r: EspErr)
      requires Valid()
      modifies this`initialized, slots
      ensures Valid() && r == Ok && initialized
      ensures Now() == if old(initialized) then old(Now()) else Step(old(Now()), Op.Clear)
    {
      if !initialized {
        ClearSlots();
        initialized := true;
      }
      return Ok;
    }

    method Deinit()
      requires Valid()
      modifies this`initialized, slots
      ensures Valid() && !initialized && Now() == Step(old(Now()), Op.Clear)
    {
      ClearSlots();
      initialized := false;
    }

    method SetNotify(registered: bool)
      requires Valid()
      modifies this`notify
      ensures Valid() && Now() == Step(old(Now()), Op.Register(registered))
    {
      notify := registered;
    }

    /** Fills one slot field by field; nothing of its old contents survives. */
    method Occupy(i: nat, s: state, pid: text)
      requires Valid() && i < slots.Length && NulFree(pid)
      modifies slots, this`filled, this`since
      ensures Valid() && Now() == Filled(old(Now()), i, s, pid)
    {
      hide Store, Stored, CStr;
      assert EntryOk(slots[i]);
      StoreIsStored(slots[i].processId, pid);
      OccupiedOk(s, pid);
      slots[i] := slots[i].(active := true);
      slots[i] := slots[i].(state := s);
      slots[i] := slots[i].(processId := Store(slots[i].processId, pid));
      filled, since := filled[i := s], since[i := |calls|];
    }

    method Create(pid: Option<text>) returns (idx: int)
      requires Valid() && (pid.Some? ==> NulFree(pid.value))
      modifies slots, this`filled, this`since
      ensures Valid()
      ensures idx == if pid.Some? && FirstFree(old(slots[..])) < slots.Length then FirstFree(old(slots[..])) else -1
      ensures Now() == if pid.Some? then Step(old(Now()), Op.Create(pid.value)) else old(Now())
    {
      hide First, TableOk, Stored;
      if pid == None {
        return -1;
      }
      for i := 0 to slots.Length
        invariant Valid() && Now() == old(Now())
        invariant forall j :: 0 <= j < i ==> slots[j].active
      {
        if !slots[i].active {
          FirstIs(slots[..], (e: Entry) => !e.active, i);
          Occupy(i, INITIAL, pid.value);
          return i;
        }
      }
      FirstIs(slots[..], (e: Entry) => !e.active, slots.Length);
      return -1;
    }

    /** Applies an event; the callback runs only on an actual transition into TRANSFERRING. */
    method Apply(idx: int, e: Event) returns (s: state)
      requires Valid()
      modifies slots, this`calls
      ensures Valid() && Now() == Step(old(Now()), Op.Apply(idx, e))
      ensures s == if ActiveAt(slots[..], idx) then slots[idx].state else INITIAL
    {
      if idx < 0 || idx >= slots.Length || !slots[idx].active {
        return INITIAL;
      }
      assert EntryOk(slots[idx]);
      var oldState := slots[idx].state;
      slots[idx] := slots[idx].(state := SmNext(oldState, e));
      if oldState != TRANSFERRING && slots[idx].state == TRANSFERRING && notify {
        calls := calls + [idx];
      }
      return slots[idx].state;
    }

    method GetState(idx: int) returns (s: state)
      ensures s == if ActiveAt(slots[..], idx) then slots[idx].state else INITIAL
    {
      if idx < 0 || idx >= slots.Length || !slots[idx].active {
        return INITIAL;
      }
      return slots[idx].state;
    }

    method GetProcessId(idx: int) returns (pid: Option<text>)
      ensures pid == if ActiveAt(slots[..], idx) then Some(CStr(slots[idx].processId)) else None
    {
      if idx < 0 || idx >= slots.Length || !slots[idx].active {
        return None;
      }
      return Some(CStr(slots[idx].processId));
    }

    method FindByPid(pid: Option<text>) returns (idx: int)
      requires Valid() && (pid.Some? ==> NulFree(pid.value))
      ensures idx == if pid.Some? && Find(slots[..], pid.value) < slots.Length then Find(slots[..], pid.value) else -1
    {
      hide StrNEqual, First, TableOk;
      if pid == None {
        return -1;
      }
      ghost var matching := (e: Entry) => e.active && StrNEqual(e.processId, pid.value, PID_LEN, 0);
      for i := 0 to slots.Length
        invariant forall j :: 0 <= j < i ==> !matching(slots[j])
      {
        if slots[i].active && StrNEqual(slots[i].processId, pid.value, PID_LEN, 0) {
          FirstIs(slots[..], matching, i);
          return i;
        }
      }
      FirstIs(slots[..], matching, slots.Length);
      return -1;
    }

    method IsActive(idx: int) returns (r: bool)
      ensures r == ActiveAt(slots[..], idx)
    {
      if idx < 0 || idx >= slots.Length {
        return false;
      }
      return slots[idx].active;
    }

    /** Fills a slot from saved state, past the state machine; the callback does not run. */
    method LoadSlot(idx: int, s: state, pid: Option<text>) returns (r: EspErr)
      requires Valid() && (pid.Some? ==> NulFree(pid.value))
      modifies slots, this`filled, this`since
      ensures Valid()
      ensures r == if !(0 <= idx < slots.Length) || pid == None then InvalidArg
                   else if !initialized then InvalidState else Ok
      ensures Now() == if r == Ok then Step(old(Now()), Op.Load(idx, s, pid.value)) else old(Now())
    {
      if idx < 0 || idx >= slots.Length || pid == None {
        return InvalidArg;
      }
      if !initialized {
        return InvalidState;
      }
      Occupy(idx, s, pid.value);
      return Ok;
    }
  }

  // ---------------------------------------------------------------------
  // Notifications over whole runs
  // ---------------------------------------------------------------------

  /** How often slot `i` occurs among the calls behind the first `from`. */
  ghost function CallsFor(calls: seq<int>, from: nat, i: nat): nat
    requires from <= |calls|
  {
    multiset(calls[from..])[i]
  }

  lemma NoCallsYet(calls: seq<int>, i: nat)
    ensures CallsFor(calls, |calls|, i) == 0
  {}

  /** One more call counts for the slot it names and for no other. */
  lemma CallCounts(calls: seq<int>, from: nat, i: nat, idx: int)
    requires from <= |calls|
    ensures CallsFor(calls + [idx], from, i) == CallsFor(calls, from, i) + if i == idx then 1 else 0
  {
    assert (calls + [idx])[from..] == calls[from..] + [idx];
  }

  /** How often the callback was called for slot `i` since it was last filled. */
  ghost function Notified(h: History, i: nat): nat
    requires Recorded(h) && i < |h.table|
  {
    CallsFor(h.calls, h.since[i], i)
  }

  /** The slot was filled as INITIAL and has left that state. */
  predicate Started(h: History, i: nat)
    requires i < |h.table| && i < |h.filled|
  {
    h.filled[i] == INITIAL && h.table[i].state != INITIAL
  }

  /** At most one call, and only for a transfer that has left INITIAL; with `all`, exactly one for those. */
  ghost predicate SlotNotified(h: History, all: bool, i: nat)
    requires Recorded(h) && i < |h.table|
  {
    && (h.table[i].state == INITIAL ==> h.filled[i] == INITIAL)
    && Notified(h, i) <= (if Started(h, i) then 1 else 0)
    && (all && Started(h, i) ==> Notified(h, i) == 1)
  }

  ghost predicate NotifiedOk(h: History, all: bool)
    requires Recorded(h)
  {
    forall i :: 0 <= i < |h.table| && h.table[i].active ==> SlotNotified(h, all, i)
  }

  lemma FilledIsOk(h: History, all: bool, k: nat, s: state, pid: text)
    requires Recorded(h) && NotifiedOk(h, all) && k < |h.table|
    ensures NotifiedOk(Filled(h, k, s, pid), all)
  {
    hide CallsFor, Stored;
    var h' := Filled(h, k, s, pid);
    NoCallsYet(h.calls, k);
    forall i | 0 <= i < |h'.table| && h'.table[i].active ensures SlotNotified(h', all, i) {
      if i != k {
        assert h'.table[i] == h.table[i] && SlotNotified(h, all, i);
      }
    }
  }

  lemma ApplyKeepsOk(h: History, all: bool, idx: int, e: Event)
    requires Recorded(h) && NotifiedOk(h, all) && (all ==> h.notify)
    ensures NotifiedOk(Step(h, Op.Apply(idx, e)), all)
  {
    hide CallsFor;
    var h' := Step(h, Op.Apply(idx, e));
    forall i | 0 <= i < |h'.table| && h'.table[i].active ensures SlotNotified(h', all, i) {
      assert SlotNotified(h, all, i);
      CallCounts(h.calls, h.since[i], i, idx);
    }
  }

  lemma StepKeepsNotifiedOk(h: History, op: Op, all: bool)
    requires Enabled(h, op) && NotifiedOk(h, all) && (all ==> h.notify)
    ensures NotifiedOk(Step(h, op), all)
  {
    hide SlotNotified, Filled, Applied, Enters, First;
    match op
    case Apply(idx, e) => ApplyKeepsOk(h, all, idx, e);
    case Create(pid) =>
      if FirstFree(h.table) < |h.table| {
        FilledIsOk(h, all, FirstFree(h.table), INITIAL, pid);
      }
    case Load(k, s, id) => FilledIsOk(h, all, k, s, id);
    case Register(on) => RegisterKeepsOk(h, all, on);
    case Clear =>
  }

  lemma RegisterKeepsOk(h: History, all: bool, on: bool)
    requires Recorded(h) && NotifiedOk(h, all)
    ensures NotifiedOk(h.(notify := on), all)
  {
    forall i | 0 <= i < |h.table| && h.table[i].active ensures SlotNotified(h.(notify := on), all, i) {
      assert SlotNotified(h, all, i);
    }
  }

  ghost predicate IsRun(hs: seq<History>, ops: seq<Op>) {
    && |hs| == |ops| + 1
    && Recorded(hs[0]) && hs[0].table == ClearedTable(|hs[0].table|)
    && forall i :: 0 <= i < |ops| ==> Enabled(hs[i], ops[i]) && hs[i + 1] == Step(hs[i], ops[i])
  }

  /**
   In every run of the operations, the callback is called at most once for a
   transfer since its slot was filled, and only if the slot was filled as
   INITIAL and has left that state: not before the start, not at completion or
   failure, not for a transfer restored past INITIAL. With the callback
   registered throughout, it is called exactly once for each of those.
   */
  lemma {:induction false} NotifiedExactlyOnce(hs: seq<History>, ops: seq<Op>, k: nat)
    requires IsRun(hs, ops) && k < |hs|
    ensures Recorded(hs[k]) && NotifiedOk(hs[k], false)
    ensures (forall j :: 0 <= j < k ==> hs[j].notify) ==> NotifiedOk(hs[k], true)
  {
    if k > 0 {
      hide NotifiedOk, Step;
      NotifiedExactlyOnce(hs, ops, k - 1);
      assert hs[k] == Step(hs[k - 1], ops[k - 1]);
      StepKeepsNotifiedOk(hs[k - 1], ops[k - 1], false);
      if forall j :: 0 <= j < k ==> hs[j].notify {
        StepKeepsNotifiedOk(hs[k - 1], ops[k - 1], true);
      }
    }
  }
}
