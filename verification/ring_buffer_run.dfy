/**
 Runs of the ring buffer of debugme/ring-buffer/main.go.

 A run is a sequence of attempted calls. An attempt whose admission check
 fails is one poll of the spin loop and changes nothing; an attempt that
 passes is the atomic step of module RingBuffer. Beside the buffer, a trace
 records every value a completed `write` stored and every value a completed
 `read` returned; this history is what delivery in order is stated against.
 The second half models `main`: one goroutine writes 0, 1, 2, ... and the
 other reads and warns whenever a value is not one more than the previous.
 */
module RingBufferRun {
  import opened RingBuffer

  /** An attempted call: `write(v)` by the producer or `read()` by the
      consumer. */
  datatype Op = Produce(v: int) | Consume

  /** A buffer with its history: the values of all completed writes and of
      all completed reads, in the order the calls completed. */
  datatype Trace = Trace(state: State, written: seq<int>, delivered: seq<int>)

  /** A fresh buffer of `size` slots with an empty history. */
  function Start(size: nat): Trace
  {
    Trace(New(size), [], [])
  }

  /** The history accounts for the counters: writeIndex completed writes and
      readIndex completed reads. */
  ghost predicate Accounted(t: Trace)
  {
    |t.written| == t.state.writeIndex && |t.delivered| == t.state.readIndex
  }

  /** The slots hold the most recent `len` written values, each in the slot of
      its logical position. This holds under either guard. */
  ghost predicate Recent(t: Trace)
  {
    && Accounted(t)
    && |t.state.buffer| > 0
    && forall k: nat :: |t.written| - |t.state.buffer| <= k < |t.written| ==>
         t.state.buffer[Slot(k, |t.state.buffer|)] == t.written[k]
  }

  /** The strict-guard invariant: the counters keep the corrected bound, the
      recent values are in place, and exactly the oldest readIndex written
      values have been delivered, in write order. */
  ghost predicate Fifo(t: Trace)
  {
    && Recent(t)
    && Inv(Strict, t.state)
    && t.delivered == t.written[..t.state.readIndex]
  }

  /** One attempted call. A blocked attempt leaves everything as it was; a
      completed one advances exactly one counter by one and appends its value
      to the matching history. */
  function Apply(g: Guard, t: Trace, op: Op): (u: Trace)
    requires |t.state.buffer| > 0
    ensures |u.state.buffer| == |t.state.buffer|
    ensures t.state.readIndex <= u.state.readIndex
    ensures t.state.writeIndex <= u.state.writeIndex
    ensures u.state.readIndex + u.state.writeIndex <= t.state.readIndex + t.state.writeIndex + 1
    ensures u.written == t.written || (op.Produce? && u.written == t.written + [op.v])
    ensures t.delivered <= u.delivered && |u.delivered| <= |t.delivered| + 1
    ensures op.Produce? ==> u.state.readIndex == t.state.readIndex && u.delivered == t.delivered
    ensures op.Consume? ==> u.state.writeIndex == t.state.writeIndex && u.written == t.written
    ensures op.Consume? && u.delivered != t.delivered ==>
      u.delivered == t.delivered + [t.state.buffer[Slot(t.state.readIndex, |t.state.buffer|)]]
    ensures || u == t
            || (op.Produce? && Write(g, t.state, op.v) == Done(u.state))
            || (op.Consume? && Read(t.state).Done? && Read(t.state).value.0 == u.state)
    ensures Accounted(t) ==> Accounted(u)
    ensures Inv(g, t.state) ==> Inv(g, u.state)
  {
    match op
    case Produce(v) =>
      (match Write(g, t.state, v)
       case Done(s) => Trace(s, t.written + [v], t.delivered)
       case _ => t)
    case Consume =>
      (match Read(t.state)
       case Done(sv) => Trace(sv.0, t.written, t.delivered + [sv.1])
       case _ => t)
  }

  /** A sequence of attempted calls, in order. Counters never go back, each
      attempt moves at most one of them, histories only grow, and the
      counter invariant of the guard is kept. */
  function Run(g: Guard, t: Trace, ops: seq<Op>): (u: Trace)
    requires |t.state.buffer| > 0
    ensures |u.state.buffer| == |t.state.buffer|
    ensures t.state.readIndex <= u.state.readIndex
    ensures t.state.writeIndex <= u.state.writeIndex
    ensures u.state.readIndex + u.state.writeIndex <= t.state.readIndex + t.state.writeIndex + |ops|
    ensures t.written <= u.written && t.delivered <= u.delivered
    ensures Accounted(t) ==> Accounted(u)
    ensures Inv(g, t.state) ==> Inv(g, u.state)
    decreases |ops|
  {
    if |ops| == 0 then t else Run(g, Apply(g, t, ops[0]), ops[1..])
  }

  /** Every attempted call keeps the most recent `len` values in their slots,
      whichever guard is used. */
  lemma ApplyKeepsRecent(g: Guard, t: Trace, op: Op)
    requires Recent(t)
    ensures Recent(Apply(g, t, op))
  {
    var u := Apply(g, t, op);
    var len := |t.state.buffer|;
    if u.written != t.written {
      var w := t.state.writeIndex;
      forall k: nat | |u.written| - len <= k < |u.written|
        ensures u.state.buffer[Slot(k, len)] == u.written[k]
      {
        if k < w {
          SlotInjective(k, w, len);
        }
      }
    }
  }

  /** Under the strict guard every attempted call keeps the FIFO invariant. */
  lemma ApplyKeepsFifo(t: Trace, op: Op)
    requires Fifo(t)
    ensures Fifo(Apply(Strict, t, op))
  {
    ApplyKeepsRecent(Strict, t, op);
    var u := Apply(Strict, t, op);
    var r := t.state.readIndex;
    if op.Consume? && u.delivered != t.delivered {
      assert u.delivered == t.delivered + [t.written[r]];
      assert t.written[..r + 1] == t.written[..r] + [t.written[r]];
    } else if op.Produce? && u.written != t.written {
      assert u.written[..r] == t.written[..r];
    }
  }

  /** Under the strict guard a whole run keeps the FIFO invariant. */
  lemma {:induction false} RunKeepsFifo(t: Trace, ops: seq<Op>)
    requires Fifo(t)
    ensures Fifo(Run(Strict, t, ops))
    decreases |ops|
  {
    if |ops| > 0 {
      ApplyKeepsFifo(t, ops[0]);
      RunKeepsFifo(Apply(Strict, t, ops[0]), ops[1..]);
    }
  }

  /** Delivery in order with the corrected guard: whatever the interleaving of
      calls, the consumer has received exactly the first values the producer
      wrote, in the order they were written, with no gap and no repeat, and
      the producer is never more than `size` values ahead. */
  lemma StrictRunDeliversInOrder(size: nat, ops: seq<Op>)
    requires size > 0
    ensures Run(Strict, Start(size), ops).delivered <= Run(Strict, Start(size), ops).written
    ensures |Run(Strict, Start(size), ops).written| <= |Run(Strict, Start(size), ops).delivered| + size
  {
    RunKeepsFifo(Start(size), ops);
  }

  /** The guard as written breaks delivery in order: with one slot,
      write(0) and write(1) are both admitted, and the first read returns 1. */
  lemma InclusiveRunReorders()
    ensures Run(Inclusive, Start(1), [Produce(0), Produce(1), Consume]).written == [0, 1]
    ensures Run(Inclusive, Start(1), [Produce(0), Produce(1), Consume]).delivered == [1]
    ensures !(Run(Inclusive, Start(1), [Produce(0), Produce(1), Consume]).delivered
              <= Run(Inclusive, Start(1), [Produce(0), Produce(1), Consume]).written)
  {
    var t1 := Apply(Inclusive, Start(1), Produce(0));
    var t2 := Apply(Inclusive, t1, Produce(1));
    assert t2.state.buffer == [1];
  }

  // The program `main`: a producer goroutine and a consumer loop.

  /** Which side of `main` makes the next attempt. */
  datatype Actor = Producer | Consumer

  /** One attempt by one side. The producer's loop counter equals the number
      of writes it has completed, so it offers that number. */
  function Act(g: Guard, t: Trace, a: Actor): Trace
    requires |t.state.buffer| > 0
  {
    match a
    case Producer => Apply(g, t, Produce(|t.written|))
    case Consumer => Apply(g, t, Consume)
  }

  /** An interleaving of the two sides, in order. As for any run, the
      counters never go back, the histories only grow and the counter
      invariant of the guard is kept. */
  function Schedule(g: Guard, t: Trace, actors: seq<Actor>): (u: Trace)
    requires |t.state.buffer| > 0
    ensures |u.state.buffer| == |t.state.buffer|
    ensures t.state.readIndex <= u.state.readIndex
    ensures t.state.writeIndex <= u.state.writeIndex
    ensures t.written <= u.written && t.delivered <= u.delivered
    ensures Accounted(t) ==> Accounted(u)
    ensures Inv(g, t.state) ==> Inv(g, u.state)
    decreases |actors|
  {
    if |actors| == 0 then t else Schedule(g, Act(g, t, actors[0]), actors[1..])
  }

  /** Appending one attempt to a schedule is one more step at its end. */
  lemma {:induction false} ScheduleSnoc(g: Guard, t: Trace, actors: seq<Actor>, a: Actor)
    requires |t.state.buffer| > 0
    ensures Schedule(g, t, actors + [a]) == Act(g, Schedule(g, t, actors), a)
    decreases |actors|
  {
    if |actors| == 0 {
      assert actors + [a] == [a];
    } else {
      assert (actors + [a])[1..] == actors[1..] + [a];
      ScheduleSnoc(g, Act(g, t, actors[0]), actors[1..], a);
    }
  }

  /** The number of warnings the consumer loop prints for the values it read,
      given the value read before them: one for every value that is not one
      more than its predecessor. It prints none exactly when the values count
      up from `prev + 1` without a gap. */
  function Warnings(values: seq<int>, prev: int): (n: nat)
    ensures n <= |values|
    ensures n == 0 <==> forall k :: 0 <= k < |values| ==> values[k] == prev + 1 + k
    decreases |values|
  {
    if |values| == 0 then 0
    else (if values[0] != prev + 1 then 1 else 0) + Warnings(values[1..], values[0])
  }

  /** The values the producer of `main` has written are 0, 1, 2, ... */
  ghost predicate Counting(t: Trace)
  {
    forall k :: 0 <= k < |t.written| ==> t.written[k] == k
  }

  /** Under the strict guard every interleaving of `main` keeps the FIFO
      invariant and the counting history. */
  lemma {:induction false} StrictScheduleKeepsFifo(t: Trace, actors: seq<Actor>)
    requires Fifo(t) && Counting(t)
    ensures Fifo(Schedule(Strict, t, actors)) && Counting(Schedule(Strict, t, actors))
    decreases |actors|
  {
    if |actors| > 0 {
      var op := if actors[0].Producer? then Produce(|t.written|) else Consume;
      ApplyKeepsFifo(t, op);
      StrictScheduleKeepsFifo(Act(Strict, t, actors[0]), actors[1..]);
    }
  }

  /** With the corrected guard `main` never prints its warning: however the
      two sides interleave, the consumer reads 0, 1, 2, ... in order. */
  lemma StrictMainNeverWarns(size: nat, actors: seq<Actor>)
    requires size > 0
    ensures Warnings(Schedule(Strict, Start(size), actors).delivered, -1) == 0
  {
    StrictScheduleKeepsFifo(Start(size), actors);
    var u := Schedule(Strict, Start(size), actors);
    assert forall k :: 0 <= k < |u.delivered| ==> u.delivered[k] == u.written[k];
  }

  /** `n` attempts by the producer alone. */
  function Producers(n: nat): (actors: seq<Actor>)
    ensures |actors| == n && forall k :: 0 <= k < n ==> actors[k] == Producer
  {
    seq(n, _ => Producer)
  }

  /** With the guard as written and no read yet, the producer's first
      `size + 1` writes are all admitted: it runs one full lap plus one slot
      ahead of the consumer. */
  lemma {:induction false} InclusiveProducerRunsAhead(size: nat, n: nat)
    requires 0 < size && n <= size + 1
    ensures Schedule(Inclusive, Start(size), Producers(n)).state.readIndex == 0
    ensures Schedule(Inclusive, Start(size), Producers(n)).state.writeIndex == n
    ensures Recent(Schedule(Inclusive, Start(size), Producers(n)))
    ensures Counting(Schedule(Inclusive, Start(size), Producers(n)))
  {
    if n > 0 {
      InclusiveProducerRunsAhead(size, n - 1);
      assert Producers(n) == Producers(n - 1) + [Producer];
      ScheduleSnoc(Inclusive, Start(size), Producers(n - 1), Producer);
      var t := Schedule(Inclusive, Start(size), Producers(n - 1));
      ApplyKeepsRecent(Inclusive, t, Produce(|t.written|));
    }
  }

  /** With the guard as written `main` warns for every buffer size: after
      `size + 1` writes and no read the producer is `size + 1` ahead, the
      oldest unread value 0 has been overwritten by `size`, and the first read
      returns `size` instead of 0. */
  lemma InclusiveMainWarns(size: nat)
    requires size > 0
    ensures var t := Schedule(Inclusive, Start(size), Producers(size + 1));
      t.state.writeIndex - t.state.readIndex == size + 1
    ensures Schedule(Inclusive, Start(size), Producers(size + 1) + [Consumer]).delivered == [size]
    ensures Warnings(Schedule(Inclusive, Start(size), Producers(size + 1) + [Consumer]).delivered, -1) == 1
  {
    InclusiveProducerRunsAhead(size, size + 1);
    ScheduleSnoc(Inclusive, Start(size), Producers(size + 1), Consumer);
    var t := Schedule(Inclusive, Start(size), Producers(size + 1));
    SlotShift(0, size);
    assert t.state.buffer[Slot(size, size)] == size;
  }
}
