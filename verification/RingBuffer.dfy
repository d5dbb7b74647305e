/**
 The sample buffer between the two cores (components/dsp_shared/dsp_shared.c):
 a circular array under a mutex, and a notification queue of depth one. The
 array refines a FIFO queue; the notification protocol loses no wake-up under
 any interleaving of producers and consumer.
 */
module RingBuffer {
  import opened EspIdf

  datatype Sample = Sample(timestampUs: nat, rawValue: nat, channel: nat)

  // ---------------------------------------------------------------------
  // Positions in the circular array
  // ---------------------------------------------------------------------

  function Wrap(i: nat, cap: nat): (w: nat)
    requires cap > 0
    ensures w < cap
  {
    i % cap
  }

  /** Indices never run further than once around the array. */
  lemma WrapOnce(i: nat, cap: nat)
    requires i < 2 * cap
    ensures Wrap(i, cap) == if i < cap then i else i - cap
  {
    if i >= cap {
      assert i == cap * 1 + (i - cap);
    }
  }

  /** The samples held by a ring, oldest first. */
  function Held(data: seq<Sample>, tail: nat, count: nat): (s: seq<Sample>)
    requires |data| > 0
    ensures |s| == count
    ensures forall i :: 0 <= i < count ==> s[i] == data[Wrap(tail + i, |data|)]
  {
    seq(count, i requires 0 <= i < count => data[Wrap(tail + i, |data|)])
  }

  lemma HeldPushed(data: seq<Sample>, tail: nat, count: nat, x: Sample)
    requires tail < |data| && count < |data|
    ensures Held(data[Wrap(tail + count, |data|) := x], tail, count + 1) == Held(data, tail, count) + [x]
    ensures Wrap(Wrap(tail + count, |data|) + 1, |data|) == Wrap(tail + (count + 1), |data|)
  {
    hide Wrap, Held;
    var cap := |data|;
    var head := Wrap(tail + count, cap);
    WrapOnce(tail + count, cap);
    WrapOnce(head + 1, cap);
    WrapOnce(tail + (count + 1), cap);
    var was, now := Held(data, tail, count), Held(data[head := x], tail, count + 1);
    forall i | 0 <= i < |now| ensures now[i] == (was + [x])[i] {
      WrapOnce(tail + i, cap);
    }
  }

  lemma HeldPopped(data: seq<Sample>, tail: nat, count: nat)
    requires tail < |data| && 0 < count <= |data|
    ensures Held(data, tail, count)[0] == data[tail]
    ensures Held(data, Wrap(tail + 1, |data|), count - 1) == Held(data, tail, count)[1..]
    ensures Wrap(Wrap(tail + 1, |data|) + (count - 1), |data|) == Wrap(tail + count, |data|)
  {
    hide Wrap, Held;
    var cap := |data|;
    var next := Wrap(tail + 1, cap);
    WrapOnce(tail, cap);
    WrapOnce(tail + 1, cap);
    WrapOnce(next + (count - 1), cap);
    WrapOnce(tail + count, cap);
    var was, now := Held(data, tail, count), Held(data, next, count - 1);
    assert was[0] == data[Wrap(tail + 0, cap)];
    forall i | 0 <= i < |now| ensures now[i] == was[1..][i] {
      WrapOnce(next + i, cap);
      WrapOnce(tail + (i + 1), cap);
      assert was[i + 1] == data[Wrap(tail + (i + 1), cap)];
    }
  }

  function SampleCells(buf: array?<Sample>): set<object> {
    if buf == null then {} else {buf}
  }

  // ---------------------------------------------------------------------
  // The buffer
  // ---------------------------------------------------------------------

  class Ring {
    const data: array<Sample>
    var head: nat
    var tail: nat
    var count: nat

    /** The head always lies `count` cells behind the tail, around the end of the array. */
    ghost predicate Valid()
      reads this
    {
      && data.Length > 0
      && tail < data.Length && count <= data.Length
      && head == Wrap(tail + count, data.Length)
    }

    ghost function Contents(): (s: seq<Sample>)
      requires Valid()
      reads this, data
    {
      Held(data[..], tail, count)
    }

    constructor (capacity: nat)
      requires capacity > 0
      ensures Valid() && fresh(data) && data.Length == capacity && Contents() == []
    {
      data := new Sample[capacity](_ => Sample(0, 0, 0));
      head, tail, count := 0, 0, 0;
      new;
      WrapOnce(0, capacity);
    }

    /** Drops the newest sample when the buffer is full. */
    method Push(sample: Sample) returns (r: EspErr)
      requires Valid()
      modifies this`head, this`count, data
      ensures Valid()
      ensures r == if |old(Contents())| == data.Length then NoMem else Ok
      ensures Contents() == if r == Ok then old(Contents()) + [sample] else old(Contents())
    {
      hide Wrap, Held;
      if count >= data.Length {
        return NoMem;
      }
      HeldPushed(data[..], tail, count, sample);
      data[head] := sample;
      head := Wrap(head + 1, data.Length);
      count := count + 1;
      return Ok;
    }

    method Pop() returns (r: EspErr, sample: Sample)
      requires Valid()
      modifies this`tail, this`count
      ensures Valid()
      ensures r == if old(Contents()) == [] then NotFound else Ok
      ensures r == Ok ==> [sample] + Contents() == old(Contents())
      ensures r == NotFound ==> Contents() == []
    {
      hide Wrap, Held;
      if count == 0 {
        return NotFound, Sample(0, 0, 0);
      }
      HeldPopped(data[..], tail, count);
      sample := data[tail];
      tail := Wrap(tail + 1, data.Length);
      count := count - 1;
      return Ok, sample;
    }

    method Count() returns (n: nat)
      requires Valid()
      ensures n == |Contents()|
    {
      return count;
    }

    /** Removes up to `capacity` samples into `buf` in one critical section. */
    method Drain(buf: array?<Sample>, capacity: nat) returns (r: EspErr, n: nat)
      requires Valid() && buf != data
      requires buf != null ==> capacity <= buf.Length
      modifies this`tail, this`count, SampleCells(buf)
      ensures Valid()
      ensures r == if capacity > 0 && buf == null then InvalidArg else Ok
      ensures n == if r != Ok then 0 else if |old(Contents())| < capacity then |old(Contents())| else capacity
      ensures Contents() == old(Contents())[n..]
      ensures buf != null ==> buf[..] == old(Contents())[..n] + old(buf[..])[n..]
    {
      if capacity == 0 {
        return Ok, 0;
      }
      if buf == null {
        return InvalidArg, 0;
      }
      hide Wrap, Held;
      n := if count < capacity then count else capacity;
      ghost var was, before := Contents(), buf[..];
      var i := 0;
      while i < n
        invariant 0 <= i <= n <= |was| && n <= buf.Length
        invariant Valid() && count == |was| - i
        invariant Contents() == was[i..]
        invariant buf[..i] == was[..i]
        invariant buf[i..] == before[i..]
      {
        HeldPopped(data[..], tail, count);
        buf[i] := data[tail];
        tail := Wrap(tail + 1, data.Length);
        count := count - 1;
        assert was[i..][1..] == was[i + 1..] && was[i..][0] == was[i];
        assert before[i..][1..] == before[i + 1..];
        i := i + 1;
      }
      assert buf[..] == buf[..n] + buf[n..];
      return Ok, n;
    }
  }

  // ---------------------------------------------------------------------
  // The queue it refines
  // ---------------------------------------------------------------------

  /** What `n` pops remove, and what they leave; a pop of an empty buffer changes nothing. */
  function Pops(queue: seq<Sample>, n: nat): (seq<Sample>, seq<Sample>) {
    if n == 0 || queue == [] then ([], queue)
    else
      var (got, rest) := Pops(queue[1..], n - 1);
      ([queue[0]] + got, rest)
  }

  function Least(a: nat, b: nat): nat {
    if a < b then a else b
  }

  /** One drain of capacity `n` removes what `n` pops remove. */
  lemma {:induction false} DrainIsPops(queue: seq<Sample>, n: nat)
    ensures var k := Least(|queue|, n); Pops(queue, n) == (queue[..k], queue[k..])
  {
    if n > 0 && queue != [] {
      DrainIsPops(queue[1..], n - 1);
      var k := Least(|queue|, n);
      assert [queue[0]] + queue[1..][..k - 1] == queue[..k];
      assert queue[1..][k - 1..] == queue[k..];
    }
  }

  // ---------------------------------------------------------------------
  // Producers and consumer
  // ---------------------------------------------------------------------

  /**
   The atomic steps: the critical section of a push, the non-blocking send that
   follows an accepted push outside the lock, the critical sections of pop and
   drain, and the consumer's receive from the notification queue.
   */
  datatype Op = Push(sample: Sample) | Send | Pop | Drain(n: nat) | Receive

  /**
   `sending` counts the pushes between unlock and send. The last four fields
   record the run: samples accepted, samples removed, samples accepted since
   the last receive, and whether the consumer has seen the buffer empty since.
   */
  datatype System = System(
    queue: seq<Sample>, token: bool, sending: nat,
    accepted: seq<Sample>, removed: seq<Sample>, unseen: nat, sawEmpty: bool)

  function Start(): System {
    System([], false, 0, [], [], 0, true)
  }

  predicate Enabled(s: System, op: Op) {
    && (op.Send? ==> s.sending > 0)
    && (op.Receive? ==> s.token)
  }

  function Remove(s: System, n: nat, k: nat): System
    requires k <= |s.queue|
  {
    s.(queue := s.queue[k..], removed := s.removed + s.queue[..k], sawEmpty := s.sawEmpty || k < n)
  }

  function Step(s: System, op: Op, cap: nat): System
    requires Enabled(s, op)
  {
    match op
    case Push(x) =>
      if |s.queue| >= cap then s
      else s.(queue := s.queue + [x], accepted := s.accepted + [x], sending := s.sending + 1, unseen := s.unseen + 1)
    case Send => s.(token := true, sending := s.sending - 1)
    case Pop => Remove(s, 1, Least(|s.queue|, 1))
    case Drain(n) => Remove(s, n, Least(|s.queue|, n))
    case Receive => s.(token := false, unseen := 0, sawEmpty := false)
  }

  /** `states` is a run of the operations from the initial state. */
  ghost predicate IsRun(states: seq<System>, ops: seq<Op>, cap: nat) {
    && |states| == |ops| + 1 && states[0] == Start()
    && forall i :: 0 <= i < |ops| ==> Enabled(states[i], ops[i]) && states[i + 1] == Step(states[i], ops[i], cap)
  }

  ghost predicate Invariant(s: System, cap: nat) {
    && |s.queue| <= cap
    && s.accepted == s.removed + s.queue
    && (s.unseen > 0 ==> s.token || s.sending > 0)
    && (s.sawEmpty && s.queue != [] ==> s.token || s.sending > 0)
  }

  lemma StepKeepsInvariant(s: System, op: Op, cap: nat)
    requires Invariant(s, cap) && Enabled(s, op)
    ensures Invariant(Step(s, op, cap), cap)
  {
    match op
    case Pop => RemoveKeepsInvariant(s, 1, Least(|s.queue|, 1), cap);
    case Drain(n) => RemoveKeepsInvariant(s, n, Least(|s.queue|, n), cap);
    case _ =>
  }

  lemma RemoveKeepsInvariant(s: System, n: nat, k: nat, cap: nat)
    requires Invariant(s, cap) && k == Least(|s.queue|, n)
    ensures Invariant(Remove(s, n, k), cap)
  {
    assert s.queue == s.queue[..k] + s.queue[k..];
  }

  lemma {:induction false} InvariantHolds(states: seq<System>, ops: seq<Op>, cap: nat, k: nat)
    requires IsRun(states, ops, cap) && k < |states|
    ensures Invariant(states[k], cap)
  {
    if k > 0 {
      InvariantHolds(states, ops, cap, k - 1);
      StepKeepsInvariant(states[k - 1], ops[k - 1], cap);
    }
  }

  /** In every reachable state nothing is lost, duplicated or reordered. */
  lemma FifoOrder(states: seq<System>, ops: seq<Op>, cap: nat, k: nat)
    requires IsRun(states, ops, cap) && k < |states|
    ensures states[k].accepted == states[k].removed + states[k].queue
    ensures |states[k].queue| <= cap
  {
    InvariantHolds(states, ops, cap, k);
  }

  /**
   No wake-up is lost. When no push is between unlock and send, a sample
   accepted since the last receive means that a token is pending; and so does
   any sample left in the buffer once the consumer has seen it empty.
   */
  lemma NoLostWakeUp(states: seq<System>, ops: seq<Op>, cap: nat, k: nat)
    requires IsRun(states, ops, cap) && k < |states| && states[k].sending == 0
    ensures states[k].unseen > 0 ==> states[k].token
    ensures states[k].sawEmpty && states[k].queue != [] ==> states[k].token
  {
    InvariantHolds(states, ops, cap, k);
  }

  // ---------------------------------------------------------------------
  // The code takes these steps
  // ---------------------------------------------------------------------

  /** The state both cores share. The ghost system is what the proofs above speak about. */
  class Shared {
    const ring: Ring
    var dataNotify: nat
    ghost var system: System

    ghost predicate Valid()
      reads this, ring, ring.data
    {
      && ring.Valid()
      && ring.Contents() == system.queue
      && dataNotify == if system.token then 1 else 0
    }

    constructor (capacity: nat)
      requires capacity > 0
      ensures Valid() && system == Start() && ring.data.Length == capacity
      ensures fresh(ring) && fresh(ring.data)
    {
      ring := new Ring(capacity);
      dataNotify := 0;
      system := Start();
    }

    /** The part of a push under the lock. */
    method PushLocked(sample: Sample) returns (r: EspErr)
      requires Valid()
      modifies this`system, ring, ring.data
      ensures Valid() && system == Step(old(system), Push(sample), ring.data.Length)
      ensures r == if |old(system).queue| >= ring.data.Length then NoMem else Ok
    {
      r := ring.Push(sample);
      system := Step(system, Push(sample), ring.data.Length);
    }

    /** The send that follows an accepted push; a full queue of depth one already announces the data. */
    method SendToken()
      requires Valid() && Enabled(system, Send)
      modifies this
      ensures Valid() && system == Step(old(system), Send, ring.data.Length)
    {
      if dataNotify < 1 {
        dataNotify := dataNotify + 1;
      }
      system := Step(system, Send, ring.data.Length);
    }

    method PopSample() returns (r: EspErr, sample: Sample)
      requires Valid()
      modifies this`system, ring
      ensures Valid() && system == Step(old(system), Pop, ring.data.Length)
      ensures r == if old(system).queue == [] then NotFound else Ok
      ensures r == Ok ==> system.removed == old(system).removed + [sample]
    {
      r, sample := ring.Pop();
      ghost var queue := system.queue;
      assert r == Ok ==> queue[..1] == [sample] && queue[1..] == ring.Contents();
      system := Step(system, Pop, ring.data.Length);
    }

    method DrainSamples(buf: array<Sample>, capacity: nat) returns (n: nat)
      requires Valid() && buf != ring.data && capacity <= buf.Length
      modifies this`system, ring, buf
      ensures Valid() && system == Step(old(system), Drain(capacity), ring.data.Length)
      ensures n <= buf.Length && system.removed == old(system).removed + buf[..n]
    {
      var r: EspErr;
      r, n := ring.Drain(buf, capacity);
      ghost var queue := system.queue;
      assert buf[..n] == queue[..n];
      system := Step(system, Drain(capacity), ring.data.Length);
    }

    method ReceiveToken()
      requires Valid() && Enabled(system, Receive)
      modifies this
      ensures Valid() && system == Step(old(system), Receive, ring.data.Length)
    {
      dataNotify := dataNotify - 1;
      system := Step(system, Receive, ring.data.Length);
    }
  }
}
