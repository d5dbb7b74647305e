/**
 The image of both slot tables that survives deep sleep
 (components/dsp_rtc_state/dsp_rtc_state.c): saving, checking and restoring it.
 */
module RtcState {
  import opened CText
  import opened EspIdf
  import opened Bytes
  import opened BitRegister
  import opened Crc32
  import opened Slots
  import N = Negotiation
  import X = Transfer

  const MAGIC: bv32 := 0x4435_5035

  // ---------------------------------------------------------------------
  // Records and their bytes
  // ---------------------------------------------------------------------

  datatype NegRecord = NegRecord(active: uchar, pad: text, state: bv32, consumerPid: text, providerPid: text)

  datatype XferRecord = XferRecord(active: uchar, pad: text, state: bv32, processId: text)

  ghost predicate NegShape(r: NegRecord) {
    |r.pad| == 3 && |r.consumerPid| == PID_LEN && |r.providerPid| == PID_LEN
  }

  ghost predicate XferShape(r: XferRecord) {
    |r.pad| == 3 && |r.processId| == PID_LEN
  }

  ghost predicate Shaped(neg: seq<NegRecord>, xfer: seq<XferRecord>) {
    && (forall i :: 0 <= i < |neg| ==> NegShape(neg[i]))
    && (forall i :: 0 <= i < |xfer| ==> XferShape(xfer[i]))
  }

  function LowByte(w: bv32): byte {
    (w & 0xFF) as byte
  }

  function HighBytes(w: bv32): bv32 {
    w >> 8
  }

  /** A 32-bit word in memory, least significant byte first. */
  function WordBytes(w: bv32): (b: seq<byte>)
    ensures |b| == 4
  {
    var w1 := HighBytes(w);
    var w2 := HighBytes(w1);
    [LowByte(w), LowByte(w1), LowByte(w2), LowByte(HighBytes(w2))]
  }

  lemma LittleEndian(w: bv32)
    ensures var b := WordBytes(w);
            w == (b[0] as bv32) | ((b[1] as bv32) << 8) | ((b[2] as bv32) << 16) | ((b[3] as bv32) << 24)
  {}

  function NegRecordBytes(r: NegRecord): (b: seq<byte>)
    ensures |b| == 5 + |r.pad| + |r.consumerPid| + |r.providerPid|
  {
    [Octet(r.active)] + Octets(r.pad) + WordBytes(r.state) + Octets(r.consumerPid) + Octets(r.providerPid)
  }

  function XferRecordBytes(r: XferRecord): (b: seq<byte>)
    ensures |b| == 5 + |r.pad| + |r.processId|
  {
    [Octet(r.active)] + Octets(r.pad) + WordBytes(r.state) + Octets(r.processId)
  }

  function NegBytes(rs: seq<NegRecord>): seq<byte> {
    if rs == [] then [] else NegRecordBytes(rs[0]) + NegBytes(rs[1..])
  }

  function XferBytes(rs: seq<XferRecord>): seq<byte> {
    if rs == [] then [] else XferRecordBytes(rs[0]) + XferBytes(rs[1..])
  }

  function DataBytes(neg: seq<NegRecord>, xfer: seq<XferRecord>): seq<byte> {
    NegBytes(neg) + XferBytes(xfer)
  }

  /** The CRC of one run over the whole data section. */
  function Checksum(neg: seq<NegRecord>, xfer: seq<XferRecord>): bv32 {
    Xor(Feed(ONES, DataBytes(neg, xfer)), ONES)
  }

  // ---------------------------------------------------------------------
  // What saving and restoring do to the tables
  // ---------------------------------------------------------------------

  function BlankNeg(): NegRecord {
    NegRecord(0, Zeros(3), 0, Zeros(PID_LEN), Zeros(PID_LEN))
  }

  function BlankXfer(): XferRecord {
    XferRecord(0, Zeros(3), 0, Zeros(PID_LEN))
  }

  function SaveNeg(e: N.Entry): NegRecord {
    if e.active then NegRecord(1, Zeros(3), e.state, Stored(CStr(e.consumerPid)), Stored(CStr(e.providerPid)))
    else BlankNeg()
  }

  function SaveXfer(e: X.Entry): XferRecord {
    if e.active then XferRecord(1, Zeros(3), e.state, Stored(CStr(e.processId))) else BlankXfer()
  }

  function SavedNeg(t: seq<N.Entry>): (rs: seq<NegRecord>)
    ensures |rs| == |t| && forall i :: 0 <= i < |t| ==> rs[i] == SaveNeg(t[i])
  {
    seq(|t|, i requires 0 <= i < |t| => SaveNeg(t[i]))
  }

  function SavedXfer(t: seq<X.Entry>): (rs: seq<XferRecord>)
    ensures |rs| == |t| && forall i :: 0 <= i < |t| ==> rs[i] == SaveXfer(t[i])
  {
    seq(|t|, i requires 0 <= i < |t| => SaveXfer(t[i]))
  }

  function RestoreNeg(e: N.Entry, r: NegRecord, initialized: bool): N.Entry {
    if r.active != 0 && initialized then N.Occupied(r.state, CStr(r.consumerPid), CStr(r.providerPid)) else e
  }

  function RestoreXfer(e: X.Entry, r: XferRecord, initialized: bool): X.Entry {
    if r.active != 0 && initialized then X.Occupied(r.state, CStr(r.processId)) else e
  }

  function RestoredNeg(t: seq<N.Entry>, rs: seq<NegRecord>, initialized: bool): (r: seq<N.Entry>)
    requires |rs| == |t|
    ensures |r| == |t| && forall i :: 0 <= i < |t| ==> r[i] == RestoreNeg(t[i], rs[i], initialized)
  {
    seq(|t|, i requires 0 <= i < |t| => RestoreNeg(t[i], rs[i], initialized))
  }

  function RestoredXfer(t: seq<X.Entry>, rs: seq<XferRecord>, initialized: bool): (r: seq<X.Entry>)
    requires |rs| == |t|
    ensures |r| == |t| && forall i :: 0 <= i < |t| ==> r[i] == RestoreXfer(t[i], rs[i], initialized)
  {
    seq(|t|, i requires 0 <= i < |t| => RestoreXfer(t[i], rs[i], initialized))
  }

  /** What a restore returns. */
  function Verdict(magic: bv32, crc32: bv32, neg: seq<NegRecord>, xfer: seq<XferRecord>): EspErr {
    if magic != MAGIC then InvalidState
    else if Checksum(neg, xfer) != crc32 then InvalidCrc
    else Ok
  }

  /** An active slot is saved with both ids in their places and its state; nothing of a free one is. */
  lemma SavedFields(t: seq<N.Entry>, i: nat)
    requires i < |t| && N.EntryOk(t[i])
    ensures var r := SavedNeg(t)[i];
            if t[i].active then
              && r.active == 1 && r.state == t[i].state
              && r.consumerPid == t[i].consumerPid && r.providerPid == t[i].providerPid
            else r == NegRecord(0, [0, 0, 0], 0, Zeros(64), Zeros(64))
  {
    hide CStr, Stored;
    assert Zeros(3) == [0, 0, 0];
  }

  lemma SavedTransferFields(t: seq<X.Entry>, i: nat)
    requires i < |t| && X.EntryOk(t[i])
    ensures var r := SavedXfer(t)[i];
            if t[i].active then r.active == 1 && r.state == t[i].state && r.processId == t[i].processId
            else r == XferRecord(0, [0, 0, 0], 0, Zeros(64))
  {
    hide CStr, Stored;
    assert Zeros(3) == [0, 0, 0];
  }

  /** Where the fields of a record lie in memory. */
  lemma RecordLayout(r: NegRecord, q: XferRecord)
    requires NegShape(r) && XferShape(q)
    ensures var b := NegRecordBytes(r);
            && |b| == 136 && b[0] == Octet(r.active) && b[4..8] == WordBytes(r.state)
            && b[8..72] == Octets(r.consumerPid) && b[72..136] == Octets(r.providerPid)
    ensures var b := XferRecordBytes(q);
            && |b| == 72 && b[0] == Octet(q.active) && b[4..8] == WordBytes(q.state)
            && b[8..72] == Octets(q.processId)
  {
    hide WordBytes, Octet, Octets;
  }

  // ---------------------------------------------------------------------
  // The round trip
  // ---------------------------------------------------------------------

  lemma NegEntryReturns(e: N.Entry, initialized: bool)
    requires N.EntryOk(e)
    ensures RestoreNeg(N.Cleared(), SaveNeg(e), initialized) == e <==> initialized || !e.active
  {
    hide CStr, Stored;
  }

  lemma XferEntryReturns(e: X.Entry, initialized: bool)
    requires X.EntryOk(e)
    ensures RestoreXfer(X.Cleared(), SaveXfer(e), initialized) == e <==> initialized || !e.active
  {
    hide CStr, Stored;
  }

  /**
   Restoring a saved table into a cleared one reproduces it exactly - active
   flags, states and padded ids - if and only if the module was initialised
   first or there was nothing to restore.
   */
  lemma NegRoundTrip(t: seq<N.Entry>, initialized: bool)
    requires N.TableOk(t)
    ensures RestoredNeg(N.ClearedTable(|t|), SavedNeg(t), initialized) == t <==>
            initialized || forall i :: 0 <= i < |t| ==> !t[i].active
  {
    hide RestoreNeg, SaveNeg, N.EntryOk;
    var back := RestoredNeg(N.ClearedTable(|t|), SavedNeg(t), initialized);
    forall i | 0 <= i < |t| ensures back[i] == t[i] <==> initialized || !t[i].active {
      NegEntryReturns(t[i], initialized);
    }
  }

  lemma XferRoundTrip(t: seq<X.Entry>, initialized: bool)
    requires X.TableOk(t)
    ensures RestoredXfer(X.ClearedTable(|t|), SavedXfer(t), initialized) == t <==>
            initialized || forall i :: 0 <= i < |t| ==> !t[i].active
  {
    hide RestoreXfer, SaveXfer, X.EntryOk;
    var back := RestoredXfer(X.ClearedTable(|t|), SavedXfer(t), initialized);
    forall i | 0 <= i < |t| ensures back[i] == t[i] <==> initialized || !t[i].active {
      XferEntryReturns(t[i], initialized);
    }
  }

  // ---------------------------------------------------------------------
  // Damage
  // ---------------------------------------------------------------------

  /** The record sizes that the header asserts: 136 and 72 bytes. */
  lemma {:induction false} NegBytesLength(rs: seq<NegRecord>)
    requires Shaped(rs, [])
    ensures |NegBytes(rs)| == 136 * |rs|
  {
    if rs != [] {
      assert NegShape(rs[0]);
      assert forall i :: 0 <= i < |rs| - 1 ==> rs[1..][i] == rs[i + 1];
      NegBytesLength(rs[1..]);
    }
  }

  lemma {:induction false} XferBytesLength(rs: seq<XferRecord>)
    requires Shaped([], rs)
    ensures |XferBytes(rs)| == 72 * |rs|
  {
    if rs != [] {
      assert XferShape(rs[0]);
      assert forall i :: 0 <= i < |rs| - 1 ==> rs[1..][i] == rs[i + 1];
      XferBytesLength(rs[1..]);
    }
  }

  lemma XorOnes(a: bv32, b: bv32)
    ensures Xor(a, ONES) == Xor(b, ONES) ==> a == b
  {}

  lemma WordBytesInjective(v: bv32, w: bv32)
    requires WordBytes(v) == WordBytes(w)
    ensures v == w
  {
    hide LowByte, HighBytes;
    var v1, w1 := HighBytes(v), HighBytes(w);
    var v2, w2 := HighBytes(v1), HighBytes(w1);
    var p, q := WordBytes(v), WordBytes(w);
    assert p[0] == q[0] && p[1] == q[1] && p[2] == q[2] && p[3] == q[3];
    NothingAbove(v);
    NothingAbove(w);
    SameWhole(HighBytes(v2), HighBytes(w2));
    SameWhole(v2, w2);
    SameWhole(v1, w1);
    SameWhole(v, w);
  }

  lemma SameLow(v: bv32, w: bv32)
    requires LowByte(v) == LowByte(w)
    ensures v & 0xFF == w & 0xFF
  {}

  lemma SameWhole(v: bv32, w: bv32)
    requires LowByte(v) == LowByte(w) && HighBytes(v) == HighBytes(w)
    ensures v == w
  {
    hide LowByte;
    SameLow(v, w);
  }

  lemma NothingAbove(w: bv32)
    ensures HighBytes(HighBytes(HighBytes(HighBytes(w)))) == 0
  {}

  lemma Split(a: seq<byte>, b: seq<byte>, c: seq<byte>, d: seq<byte>)
    requires |a| == |c| && a + b == c + d
    ensures a == c && b == d
  {
    assert a == (a + b)[..|a|] && c == (c + d)[..|a|];
    assert b == (a + b)[|a|..] && d == (c + d)[|a|..];
  }

  lemma SameHead(a: uchar, pad: text, w: bv32, a': uchar, pad': text, w': bv32)
    requires |pad| == |pad'|
    requires [Octet(a)] + Octets(pad) + WordBytes(w) == [Octet(a')] + Octets(pad') + WordBytes(w')
    ensures a == a' && pad == pad' && w == w'
  {
    hide WordBytes, Octet, Octets;
    Split([Octet(a)] + Octets(pad), WordBytes(w), [Octet(a')] + Octets(pad'), WordBytes(w'));
    Split([Octet(a)], Octets(pad), [Octet(a')], Octets(pad'));
    assert [Octet(a)][0] == [Octet(a')][0];
    OctetInjective(a, a');
    OctetsInjective(pad, pad');
    WordBytesInjective(w, w');
  }

  lemma NegRecordInjective(r: NegRecord, q: NegRecord)
    requires NegShape(r) && NegShape(q) && NegRecordBytes(r) == NegRecordBytes(q)
    ensures r == q
  {
    hide WordBytes, Octet, Octets;
    var a, b := [Octet(r.active)] + Octets(r.pad), [Octet(q.active)] + Octets(q.pad);
    Split(a + WordBytes(r.state) + Octets(r.consumerPid), Octets(r.providerPid),
          b + WordBytes(q.state) + Octets(q.consumerPid), Octets(q.providerPid));
    Split(a + WordBytes(r.state), Octets(r.consumerPid), b + WordBytes(q.state), Octets(q.consumerPid));
    SameHead(r.active, r.pad, r.state, q.active, q.pad, q.state);
    OctetsInjective(r.consumerPid, q.consumerPid);
    OctetsInjective(r.providerPid, q.providerPid);
  }

  lemma XferRecordInjective(r: XferRecord, q: XferRecord)
    requires XferShape(r) && XferShape(q) && XferRecordBytes(r) == XferRecordBytes(q)
    ensures r == q
  {
    hide WordBytes, Octet, Octets;
    Split([Octet(r.active)] + Octets(r.pad) + WordBytes(r.state), Octets(r.processId),
          [Octet(q.active)] + Octets(q.pad) + WordBytes(q.state), Octets(q.processId));
    SameHead(r.active, r.pad, r.state, q.active, q.pad, q.state);
    OctetsInjective(r.processId, q.processId);
  }

  lemma NegRecordSize(r: NegRecord)
    requires NegShape(r)
    ensures |NegRecordBytes(r)| == 136
  {}

  lemma XferRecordSize(r: XferRecord)
    requires XferShape(r)
    ensures |XferRecordBytes(r)| == 72
  {}

  lemma {:induction false} NegBytesInjective(a: seq<NegRecord>, b: seq<NegRecord>)
    requires Shaped(a, []) && Shaped(b, []) && |a| == |b| && NegBytes(a) == NegBytes(b)
    ensures a == b
  {
    hide NegRecordBytes, NegShape;
    if a != [] {
      NegRecordSize(a[0]);
      NegRecordSize(b[0]);
      assert forall i :: 0 <= i < |a| - 1 ==> a[1..][i] == a[i + 1] && b[1..][i] == b[i + 1];
      Split(NegRecordBytes(a[0]), NegBytes(a[1..]), NegRecordBytes(b[0]), NegBytes(b[1..]));
      NegRecordInjective(a[0], b[0]);
      NegBytesInjective(a[1..], b[1..]);
      assert a == [a[0]] + a[1..] && b == [b[0]] + b[1..];
    }
  }

  lemma {:induction false} XferBytesInjective(a: seq<XferRecord>, b: seq<XferRecord>)
    requires Shaped([], a) && Shaped([], b) && |a| == |b| && XferBytes(a) == XferBytes(b)
    ensures a == b
  {
    hide XferRecordBytes, XferShape;
    if a != [] {
      XferRecordSize(a[0]);
      XferRecordSize(b[0]);
      assert forall i :: 0 <= i < |a| - 1 ==> a[1..][i] == a[i + 1] && b[1..][i] == b[i + 1];
      Split(XferRecordBytes(a[0]), XferBytes(a[1..]), XferRecordBytes(b[0]), XferBytes(b[1..]));
      XferRecordInjective(a[0], b[0]);
      XferBytesInjective(a[1..], b[1..]);
      assert a == [a[0]] + a[1..] && b == [b[0]] + b[1..];
    }
  }

  /** Images of the same size have data sections of the same size, and different ones differ there. */
  lemma DataBytesFaithful(neg: seq<NegRecord>, xfer: seq<XferRecord>, neg': seq<NegRecord>, xfer': seq<XferRecord>)
    requires Shaped(neg, xfer) && Shaped(neg', xfer') && |neg| == |neg'| && |xfer| == |xfer'|
    ensures |DataBytes(neg, xfer)| == |DataBytes(neg', xfer')| == 136 * |neg| + 72 * |xfer|
    ensures DataBytes(neg, xfer) == DataBytes(neg', xfer') <==> neg == neg' && xfer == xfer'
  {
    hide NegBytes, XferBytes;
    NegBytesLength(neg);
    NegBytesLength(neg');
    XferBytesLength(xfer);
    XferBytesLength(xfer');
    if DataBytes(neg, xfer) == DataBytes(neg', xfer') {
      Split(NegBytes(neg), XferBytes(xfer), NegBytes(neg'), XferBytes(xfer'));
      NegBytesInjective(neg, neg');
      XferBytesInjective(xfer, xfer');
    }
  }

  /** The two data sections differ only inside 32 consecutive bits. */
  ghost predicate BurstApart(x: seq<byte>, y: seq<byte>, from: nat) {
    |x| == |y| && DifferInWindow(BitStream(x), BitStream(y), from, 32)
  }

  /**
   Damage confined to 32 consecutive bits of the data section is always found:
   when the image was intact before, restoring it afterwards reports a CRC error.
   */
  lemma BurstIsFound(magic: bv32, crc32: bv32, neg: seq<NegRecord>, xfer: seq<XferRecord>,
                     neg': seq<NegRecord>, xfer': seq<XferRecord>, from: nat)
    requires Verdict(magic, crc32, neg, xfer) == Ok
    requires Shaped(neg, xfer) && Shaped(neg', xfer') && |neg| == |neg'| && |xfer| == |xfer'|
    requires neg != neg' || xfer != xfer'
    requires BurstApart(DataBytes(neg, xfer), DataBytes(neg', xfer'), from)
    ensures Verdict(magic, crc32, neg', xfer') == InvalidCrc
  {
    hide Feed, BitStream, Xor, DataBytes, DifferInWindow;
    DataBytesFaithful(neg, xfer, neg', xfer');
    BurstDetected(ONES, DataBytes(neg, xfer), DataBytes(neg', xfer'), from);
    XorOnes(Feed(ONES, DataBytes(neg, xfer)), Feed(ONES, DataBytes(neg', xfer')));
  }

  // ---------------------------------------------------------------------
  // The store
  // ---------------------------------------------------------------------

  class Store {
    var magic: bv32
    var crc32: bv32
    const neg: array<NegRecord>
    const xfer: array<XferRecord>

    ghost predicate Valid()
      reads this, neg, xfer
    {
      Shaped(neg[..], xfer[..])
    }

    /** RTC memory may hold anything at first; the boot loader clears it. */
    constructor (negSize: nat, xferSize: nat)
      ensures Valid() && magic == 0 && crc32 == 0
      ensures neg.Length == negSize && xfer.Length == xferSize && fresh(neg) && fresh(xfer)
    {
      magic, crc32 := 0, 0;
      neg := new NegRecord[negSize](_ => BlankNeg());
      xfer := new XferRecord[xferSize](_ => BlankXfer());
    }

    method ClearData()
      modifies neg, xfer
      ensures Valid()
      ensures forall i :: 0 <= i < neg.Length ==> neg[i] == BlankNeg()
      ensures forall i :: 0 <= i < xfer.Length ==> xfer[i] == BlankXfer()
    {
      forall i | 0 <= i < neg.Length {
        neg[i] := BlankNeg();
      }
      forall i | 0 <= i < xfer.Length {
        xfer[i] := BlankXfer();
      }
    }

    /** Feeds the two arrays one after the other. */
    method ComputeCrc32() returns (crc: bv32)
      ensures crc == Checksum(neg[..], xfer[..])
    {
      hide Feed;
      crc := ONES;
      crc := Crc32Update(crc, NegBytes(neg[..]));
      crc := Crc32Update(crc, XferBytes(xfer[..]));
      FeedConcat(ONES, NegBytes(neg[..]), XferBytes(xfer[..]));
      return Xor(crc, ONES);
    }

    method SnapshotNeg(table: N.Table)
      requires table.Valid() && table.slots.Length == neg.Length
      requires forall i :: 0 <= i < neg.Length ==> neg[i] == BlankNeg()
      modifies neg
      ensures neg[..] == SavedNeg(table.slots[..])
    {
      hide Stored, CStr, StrNCpy, IsStored;
      for i := 0 to neg.Length
        invariant forall j :: 0 <= j < i ==> neg[j] == SaveNeg(table.slots[j])
        invariant forall j :: i <= j < neg.Length ==> neg[j] == BlankNeg()
      {
        var active := table.IsActive(i);
        if active {
          neg[i] := neg[i].(active := 1);
          var s := table.GetState(i);
          neg[i] := neg[i].(state := s);
          var cpid := table.GetConsumerPid(i);
          var ppid := table.GetProviderPid(i);
          if cpid.Some? {
            StoreIsStored(neg[i].consumerPid, cpid.value);
            neg[i] := neg[i].(consumerPid := Slots.Store(neg[i].consumerPid, cpid.value));
          }
          if ppid.Some? {
            StoreIsStored(neg[i].providerPid, ppid.value);
            neg[i] := neg[i].(providerPid := Slots.Store(neg[i].providerPid, ppid.value));
          }
        }
      }
      assert neg[..] == SavedNeg(table.slots[..]);
    }

    method SnapshotXfer(table: X.Table)
      requires table.Valid() && table.slots.Length == xfer.Length
      requires forall i :: 0 <= i < xfer.Length ==> xfer[i] == BlankXfer()
      modifies xfer
      ensures xfer[..] == SavedXfer(table.slots[..])
    {
      hide Stored, CStr, StrNCpy, IsStored;
      for i := 0 to xfer.Length
        invariant forall j :: 0 <= j < i ==> xfer[j] == SaveXfer(table.slots[j])
        invariant forall j :: i <= j < xfer.Length ==> xfer[j] == BlankXfer()
      {
        var active := table.IsActive(i);
        if active {
          xfer[i] := xfer[i].(active := 1);
          var s := table.GetState(i);
          xfer[i] := xfer[i].(state := s);
          var pid := table.GetProcessId(i);
          if pid.Some? {
            StoreIsStored(xfer[i].processId, pid.value);
            xfer[i] := xfer[i].(processId := Slots.Store(xfer[i].processId, pid.value));
          }
        }
      }
      assert xfer[..] == SavedXfer(table.slots[..]);
    }

    method Save(negTable: N.Table, xferTable: X.Table) returns (r: EspErr)
      requires negTable.Valid() && xferTable.Valid()
      requires negTable.slots.Length == neg.Length && xferTable.slots.Length == xfer.Length
      modifies this, neg, xfer
      ensures Valid() && r == Ok
      ensures neg[..] == SavedNeg(negTable.slots[..]) && xfer[..] == SavedXfer(xferTable.slots[..])
      ensures Verdict(magic, crc32, neg[..], xfer[..]) == Ok
    {
      hide Checksum, Stored, CStr;
      ClearData();
      SnapshotNeg(negTable);
      SnapshotXfer(xferTable);
      crc32 := ComputeCrc32();
      magic := MAGIC;
      return Ok;
    }

    method LoadNeg(table: N.Table)
      requires Valid() && table.Valid() && table.slots.Length == neg.Length
      modifies table.slots
      ensures table.Valid()
      ensures table.slots[..] == RestoredNeg(old(table.slots[..]), neg[..], table.initialized)
    {
      hide Stored, CStr, N.TableOk;
      for i := 0 to neg.Length
        invariant table.Valid()
        invariant forall j :: 0 <= j < i ==>
                  table.slots[j] == RestoreNeg(old(table.slots[j]), neg[j], table.initialized)
        invariant forall j :: i <= j < neg.Length ==> table.slots[j] == old(table.slots[j])
      {
        if neg[i].active != 0 {
          var _ := table.LoadSlot(i, neg[i].state, Some(CStr(neg[i].consumerPid)), Some(CStr(neg[i].providerPid)));
        }
      }
    }

    method LoadXfer(table: X.Table)
      requires Valid() && table.Valid() && table.slots.Length == xfer.Length
      modifies table.slots, table`filled, table`since
      ensures table.Valid()
      ensures table.slots[..] == RestoredXfer(old(table.slots[..]), xfer[..], table.initialized)
    {
      hide Stored, CStr, X.TableOk;
      for i := 0 to xfer.Length
        invariant table.Valid()
        invariant forall j :: 0 <= j < i ==>
                  table.slots[j] == RestoreXfer(old(table.slots[j]), xfer[j], table.initialized)
        invariant forall j :: i <= j < xfer.Length ==> table.slots[j] == old(table.slots[j])
      {
        if xfer[i].active != 0 {
          var _ := table.LoadSlot(i, xfer[i].state, Some(CStr(xfer[i].processId)));
        }
      }
    }

    /** A restore that fails changes neither table; none runs the callback. */
    method Restore(negTable: N.Table, xferTable: X.Table) returns (r: EspErr)
      requires Valid() && negTable.Valid() && xferTable.Valid()
      requires negTable.slots.Length == neg.Length && xferTable.slots.Length == xfer.Length
      modifies negTable.slots, xferTable.slots, xferTable`filled, xferTable`since
      ensures negTable.Valid() && xferTable.Valid()
      ensures r == Verdict(magic, crc32, neg[..], xfer[..])
      ensures magic != 0x4435_5035 ==> r == InvalidState
      ensures magic == 0x4435_5035 ==> r == if Checksum(neg[..], xfer[..]) == crc32 then Ok else InvalidCrc
      ensures negTable.slots[..] ==
              if r == Ok then RestoredNeg(old(negTable.slots[..]), neg[..], negTable.initialized)
              else old(negTable.slots[..])
      ensures xferTable.slots[..] ==
              if r == Ok then RestoredXfer(old(xferTable.slots[..]), xfer[..], xferTable.initialized)
              else old(xferTable.slots[..])
    {
      hide Checksum, N.TableOk, X.TableOk, Shaped;
      if magic != MAGIC {
        return InvalidState;
      }
      var crc := ComputeCrc32();
      if crc != crc32 {
        return InvalidCrc;
      }
      LoadNeg(negTable);
      LoadXfer(xferTable);
      return Ok;
    }

    method Clear()
      modifies this, neg, xfer
      ensures Valid() && Verdict(magic, crc32, neg[..], xfer[..]) == InvalidState
    {
      ClearData();
      magic, crc32 := 0, 0;
    }

    /** Valid exactly when a restore would succeed. */
    method IsValid() returns (valid: bool)
      ensures valid <==> Verdict(magic, crc32, neg[..], xfer[..]) == Ok
    {
      hide Checksum;
      if magic != MAGIC {
        return false;
      }
      var crc := ComputeCrc32();
      return crc == crc32;
    }
  }

  /**
   One sleep: save, lose the working memory, initialise, restore. Both tables
   come back exactly as they were.
   */
  method SleepAndWake(store: Store, negTable: N.Table, xferTable: X.Table) returns (r: EspErr)
    requires store.Valid() && negTable.Valid() && xferTable.Valid()
    requires negTable.slots.Length == store.neg.Length && xferTable.slots.Length == store.xfer.Length
    modifies store, store.neg, store.xfer
    modifies negTable`initialized, negTable.slots
    modifies xferTable`initialized, xferTable.slots, xferTable`filled, xferTable`since
    ensures r == Ok && store.Valid() && negTable.Valid() && xferTable.Valid()
    ensures negTable.slots[..] == old(negTable.slots[..]) && xferTable.slots[..] == old(xferTable.slots[..])
    ensures negTable.initialized && xferTable.initialized
  {
    hide Checksum, N.TableOk, X.TableOk, Shaped, Verdict;
    ghost var negs, xfers := negTable.slots[..], xferTable.slots[..];
    r := store.Save(negTable, xferTable);
    negTable.Deinit();
    xferTable.Deinit();
    r := negTable.Init();
    r := xferTable.Init();
    r := store.Restore(negTable, xferTable);
    NegRoundTrip(negs, true);
    XferRoundTrip(xfers, true);
  }
}
