/**
 The ring buffer of debugme/ring-buffer/main.go as a sequential transition system.

 The Go type holds two counters that only grow, a fixed slice of slots and a
 read/write mutex. Both `read` and `write` poll their admission check under the
 lock and, once it holds, keep the lock (through `defer`) until the body has
 finished. `write` takes the exclusive lock, so it excludes every other call.
 `read` takes only the shared lock yet still advances readIndex, so it is
 atomic only because `main` has a single consumer: no other read can run
 beside it, and the shared lock still excludes the writer. Under that
 single-consumer assumption every completed call is one atomic, guarded step
 over (readIndex, writeIndex, buffer), and a failed check is a poll that
 changes nothing. This module defines that step and the invariants
 it keeps.
 */
module RingBuffer {

  /** The admission rule of `write`. `Inclusive` is the rule as written
      (writeIndex <= readIndex + len); `Strict` is the corrected rule
      (writeIndex < readIndex + len) that never lets the producer overwrite a
      slot the consumer has not read yet. */
  datatype Guard = Inclusive | Strict

  /** The data fields of `ringBuffer`. The counters are logical positions,
      unbounded here (the source's uint64 never wraps in practice); the slot of
      position i is i mod len(buffer). */
  datatype State = State(readIndex: nat, writeIndex: nat, buffer: seq<int>)

  /** What one attempt at an operation does. `Blocked`: the admission check
      failed, the lock is released and the caller polls again. `Panic`: the
      check passed but the slot computation divides by a zero-length buffer.
      `Done`: the operation completed with the given result. */
  datatype Step<T> = Blocked | Panic | Done(value: T)

  /** The slot that logical position `index` occupies in a buffer of `len`
      slots. */
  function Slot(index: nat, len: nat): (k: nat)
    requires len > 0
    ensures k < len
    ensures index == (index / len) * len + k
  {
    index % len
  }

  /** Any `len` consecutive logical positions occupy `len` different slots. */
  lemma SlotInjective(i: nat, j: nat, len: nat)
    requires len > 0
    requires i < j < i + len
    ensures Slot(i, len) != Slot(j, len)
  {
    var d := j / len - i / len;
    assert j - i == d * len + (Slot(j, len) - Slot(i, len));
    if d <= 0 {
      MulSign(-d, len);
      assert Slot(j, len) - Slot(i, len) >= j - i;
    } else {
      MulSign(d - 1, len);
      assert Slot(j, len) - Slot(i, len) <= j - i - len;
    }
  }

  /** Positions `len` apart share a slot. */
  lemma SlotShift(i: nat, len: nat)
    requires len > 0
    ensures Slot(i + len, len) == Slot(i, len)
  {
    var q := i / len;
    assert i + len == (q + 1) * len + Slot(i, len);
    UniqueDivision(i + len, len, q + 1, Slot(i, len));
  }

  /** Quotient and remainder are the only decomposition with a remainder in
      [0, len). */
  lemma UniqueDivision(n: nat, len: nat, q: int, k: int)
    requires len > 0 && 0 <= k < len
    requires n == q * len + k
    ensures Slot(n, len) == k
  {
    var q' := n / len;
    var d := q - q';
    assert d * len == Slot(n, len) - k;
    if d > 0 {
      MulSign(d - 1, len);
    } else if d < 0 {
      MulSign(-d - 1, len);
    }
  }

  /** A product of two non-negative integers is non-negative. Dafny proves it
      unaided; calling it is only a hint that brings this nonlinear fact into
      the proofs of `SlotInjective` and `UniqueDivision`. */
  lemma MulSign(a: nat, b: nat)
    ensures a * b >= 0
  {
  }

  /** The largest backlog writeIndex - readIndex a guard admits. */
  function Bound(g: Guard, len: nat): nat
  {
    match g
    case Inclusive => len + 1
    case Strict => len
  }

  /** The counter invariant: the consumer never passes the producer, and the
      producer is never more than `Bound(g, len)` positions ahead. */
  ghost predicate Inv(g: Guard, s: State)
  {
    s.readIndex <= s.writeIndex <= s.readIndex + Bound(g, |s.buffer|)
  }

  /** The buffer `main` builds with `make([]int, size)`: both counters zero
      and every slot holding Go's zero value. */
  function New(size: nat): (s: State)
    ensures s.readIndex == 0 && s.writeIndex == 0
    ensures |s.buffer| == size
    ensures forall k :: 0 <= k < size ==> s.buffer[k] == 0
    ensures Inv(Inclusive, s) && Inv(Strict, s)
  {
    State(0, 0, seq(size, _ => 0))
  }

  /** The admission check of `read`: there is an unread position. */
  predicate CanRead(s: State)
  {
    s.readIndex < s.writeIndex
  }

  /** The admission check of `write` under guard `g`. */
  predicate CanWrite(g: Guard, s: State)
  {
    match g
    case Inclusive => s.writeIndex <= s.readIndex + |s.buffer|
    case Strict => s.writeIndex < s.readIndex + |s.buffer|
  }

  /** One attempt at `read`: blocked exactly when nothing is unread; otherwise
      it returns the slot of readIndex and advances readIndex by one, leaving
      writeIndex and every slot alone. It keeps the invariant of either guard. */
  function Read(s: State): (out: Step<(State, int)>)
    ensures out.Blocked? <==> !CanRead(s)
    ensures out.Panic? <==> CanRead(s) && |s.buffer| == 0
    ensures out.Done? ==>
      && out.value.0.readIndex == s.readIndex + 1
      && out.value.0.writeIndex == s.writeIndex
      && out.value.0.buffer == s.buffer
      && out.value.1 == s.buffer[Slot(s.readIndex, |s.buffer|)]
    ensures out.Done? && Inv(Inclusive, s) ==> Inv(Inclusive, out.value.0)
    ensures out.Done? && Inv(Strict, s) ==> Inv(Strict, out.value.0)
  {
    if !CanRead(s) then Blocked
    else if |s.buffer| == 0 then Panic
    else
      var v := s.buffer[s.readIndex % |s.buffer|];
      Done((s.(readIndex := s.readIndex + 1), v))
  }

  /** One attempt at `write(v)` under guard `g`: blocked exactly when the guard
      fails; otherwise it stores `v` in the slot of writeIndex, advances
      writeIndex by one and leaves readIndex and every other slot alone. It
      keeps the invariant of its own guard. */
  function Write(g: Guard, s: State, v: int): (out: Step<State>)
    ensures out.Blocked? <==> !CanWrite(g, s)
    ensures out.Panic? <==> CanWrite(g, s) && |s.buffer| == 0
    ensures out.Done? ==>
      && out.value.readIndex == s.readIndex
      && out.value.writeIndex == s.writeIndex + 1
      && |out.value.buffer| == |s.buffer|
      && out.value.buffer[Slot(s.writeIndex, |s.buffer|)] == v
      && forall k :: 0 <= k < |s.buffer| && k != Slot(s.writeIndex, |s.buffer|) ==>
           out.value.buffer[k] == s.buffer[k]
    ensures out.Done? && Inv(g, s) ==> Inv(g, out.value)
  {
    if !CanWrite(g, s) then Blocked
    else if |s.buffer| == 0 then Panic
    else Done(State(s.readIndex, s.writeIndex + 1, s.buffer[s.writeIndex % |s.buffer| := v]))
  }

  /** Under the rule as written the producer may run a full `len + 1`
      positions ahead of the consumer, one more than the buffer has slots:
      the write at readIndex + len is admitted. */
  lemma InclusiveAdmitsOverrun(s: State, v: int)
    requires |s.buffer| > 0
    requires s.writeIndex == s.readIndex + |s.buffer|
    ensures Write(Inclusive, s, v).Done?
    ensures Write(Inclusive, s, v).value.writeIndex - s.readIndex == |s.buffer| + 1
    ensures Slot(s.writeIndex, |s.buffer|) == Slot(s.readIndex, |s.buffer|)
    ensures !Write(Strict, s, v).Done?
  {
    SlotShift(s.readIndex, |s.buffer|);
  }
}
