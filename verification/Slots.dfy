/**
 What the two slot tables share: process-id buffers filled by strncpy and
 compared by strncmp, and searches for the first matching slot
 (components/dsp_neg/dsp_neg.c and components/dsp_xfer/dsp_xfer.c).
 */
module Slots {
  import opened CText

  /** DSP_NEG_PID_LEN and DSP_XFER_PID_LEN: a process-id buffer with its terminator. */
  const PID_LEN: nat := 64

  function Zeros(n: nat): (z: text)
    ensures |z| == n
  {
    seq(n, _ => NUL)
  }

  // ---------------------------------------------------------------------
  // Process-id buffers
  // ---------------------------------------------------------------------

  /** strncpy: at most `n` characters, padded with terminators up to `n`; the rest stays. */
  function StrNCpy(dst: text, src: text, n: nat): (r: text)
    requires n <= |dst|
    ensures |r| == |dst|
  {
    (if |src| < n then src + Zeros(n - |src|) else src[..n]) + dst[n..]
  }

  /** The two statements that store an id: a bounded copy, then the final terminator. */
  function Store(buffer: text, pid: text): (r: text)
    requires |buffer| == PID_LEN
    ensures |r| == PID_LEN
  {
    StrNCpy(buffer, pid, PID_LEN - 1)[PID_LEN - 1 := NUL]
  }

  /** What is kept of an id: its first 63 characters, or all of it. */
  function Truncated(pid: text): (k: text)
    ensures k <= pid && |k| == if |pid| <= 63 then |pid| else 63
  {
    if |pid| < PID_LEN then pid else pid[..PID_LEN - 1]
  }

  /** The buffer that holds an id: the kept characters, then terminators only. */
  function Stored(pid: text): (r: text)
    ensures |r| == PID_LEN
  {
    Truncated(pid) + Zeros(PID_LEN - |Truncated(pid)|)
  }

  /** Storing leaves nothing of the old contents behind. */
  lemma StoreIsStored(buffer: text, pid: text)
    requires |buffer| == PID_LEN
    ensures Store(buffer, pid) == Stored(pid)
  {}

  lemma StoredReads(pid: text)
    requires NulFree(pid)
    ensures CStr(Stored(pid)) == Truncated(pid) && NulFree(Truncated(pid))
  {
    var k := Truncated(pid);
    CStrOfTerminated(k, Zeros(PID_LEN - |k| - 1));
    assert Stored(pid) == k + [NUL] + Zeros(PID_LEN - |k| - 1);
  }

  /** A buffer that some id was stored in. */
  ghost predicate IsStored(buffer: text) {
    buffer == Stored(CStr(buffer))
  }

  lemma StoredIsStored(pid: text)
    requires NulFree(pid)
    ensures IsStored(Stored(pid))
  {
    StoredReads(pid);
  }

  lemma EmptyIsStored()
    ensures Stored([]) == Zeros(PID_LEN) && IsStored(Zeros(PID_LEN))
  {
    StoredReads([]);
    assert Stored([]) == Zeros(PID_LEN);
  }

  function CharAt(s: text, i: nat): uchar {
    if i < |s| then s[i] else NUL
  }

  /** strncmp(a, b, n) == 0, from position `i` on. */
  predicate StrNEqual(a: text, b: text, n: nat, i: nat)
    requires i <= n
    decreases n - i
  {
    i == n || (CharAt(a, i) == CharAt(b, i) && (CharAt(a, i) == NUL || StrNEqual(a, b, n, i + 1)))
  }

  /** Comparing a stored buffer with an id compares the kept characters with the whole id. */
  lemma {:induction false} StrNEqualFrom(k: text, pid: text, i: nat)
    requires NulFree(k) && NulFree(pid) && |k| < PID_LEN
    requires i <= |k| && i <= |pid| && k[..i] == pid[..i]
    ensures StrNEqual(k + Zeros(PID_LEN - |k|), pid, PID_LEN, i) <==> k == pid
    decreases |k| - i
  {
    var a := k + Zeros(PID_LEN - |k|);
    if i < |k| && i < |pid| && k[i] == pid[i] {
      assert k[..i + 1] == k[..i] + [k[i]] && pid[..i + 1] == pid[..i] + [pid[i]];
      StrNEqualFrom(k, pid, i + 1);
    } else if i == |k| == |pid| {
      assert k == k[..i] == pid[..i] == pid;
      assert CharAt(a, i) == NUL == CharAt(pid, i);
    } else {
      assert CharAt(a, i) == CharAt(k, i);
    }
  }

  lemma SamePid(stored: text, pid: text)
    requires IsStored(stored) && NulFree(pid)
    ensures StrNEqual(stored, pid, PID_LEN, 0) <==> CStr(stored) == pid
  {
    var k := CStr(stored);
    StoredReads(k);
    assert k == Truncated(k);
    StrNEqualFrom(k, pid, 0);
  }

  // ---------------------------------------------------------------------
  // Searching a table
  // ---------------------------------------------------------------------

  /** The first position whose entry satisfies `p`, or the length of the table. */
  function First<E>(t: seq<E>, p: E -> bool): (k: nat)
    ensures k <= |t|
    ensures k < |t| ==> p(t[k])
    ensures forall j :: 0 <= j < k ==> !p(t[j])
  {
    if t == [] || p(t[0]) then 0 else 1 + First(t[1..], p)
  }

  lemma FirstIs<E>(t: seq<E>, p: E -> bool, k: nat)
    requires k <= |t| && (k < |t| ==> p(t[k]))
    requires forall j :: 0 <= j < k ==> !p(t[j])
    ensures First(t, p) == k
  {}

  /** How many entries satisfy `p`. */
  function Count<E>(t: seq<E>, p: E -> bool): (n: nat)
    ensures n <= |t|
  {
    if t == [] then 0 else Count(t[..|t| - 1], p) + if p(t[|t| - 1]) then 1 else 0
  }

  /** The positions of the entries that satisfy `p`. */
  function Positions<E>(t: seq<E>, p: E -> bool): set<nat> {
    set i: nat | i < |t| && p(t[i])
  }

  lemma {:induction false} CountIsSize<E>(t: seq<E>, p: E -> bool)
    ensures Count(t, p) == |Positions(t, p)|
  {
    if t != [] {
      var n := |t| - 1;
      CountIsSize(t[..n], p);
      var before := Positions(t[..n], p);
      if p(t[n]) {
        assert Positions(t, p) == before + {n};
      } else {
        assert Positions(t, p) == before;
      }
    }
  }
}
