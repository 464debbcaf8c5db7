# Ring buffer and total redistribution: a Dafny model

This project models the two pieces of sequential logic in the debugging
workshop's `debugme` programs and proves properties about them.

- **The ring buffer** (`debugme/ring-buffer/main.go`). `ringBuffer` has two
  counters, `readIndex` and `writeIndex`, that only grow, and a slice of `len`
  slots. Position `i` lives in slot `i mod len`. `read` and `write` poll their
  admission check under a mutex. Once the check holds, they keep the lock
  until the body finishes (`defer`). `write` holds the exclusive lock, but
  `read` holds only the shared lock while it advances `readIndex`. A read is
  therefore atomic only because `main` has a single consumer. Under that
  assumption every completed call is one atomic, guarded step, and a failed
  check is a poll that changes nothing. Module
  `RingBuffer` (`ring_buffer.dfy`) defines the state, the slot arithmetic and
  the two steps. Module `RingBufferRun` (`ring_buffer_run.dfy`) covers three
  things:
  - runs of attempted calls, with a history of the values written and
    delivered;
  - FIFO delivery (first in, first out) under the corrected guard;
  - the `main` program: a producer writes 0, 1, 2, … and a consumer warns when
    a value is not one more than the previous one.

  The write guard is a parameter. `Inclusive` is the rule as written
  (`writeIndex <= readIndex + len`). `Strict` is the corrected rule
  (`writeIndex < readIndex + len`).
- **The `increaseTotal` arithmetic** (`debugme/deadlock/main.go`). Module
  `Redistribution` (`redistribution.dfy`) strips the per-element mutexes and
  treats the array as a `seq<int>`. It sums the selected entries. If `amount`
  is larger, it splits the difference evenly over them and adds the remainder
  to one entry. Two rules for choosing that entry are modelled:
  - as written: the entry whose data index equals `len(indices) - 1`;
  - corrected: the last listed entry.

  The module also models the distinct-index selection loop of
  `increaseTotals`.

The code's write guard keeps the producer at most `len + 1` positions ahead
of the consumer, not `len`. So the code does not keep the backlog within
`len(buffer)`, which the in-order check of `main`
(`debugme/ring-buffer/main.go:61-69`) relies on. The model follows the code:
`Inv(Inclusive, s)` is the bound the code keeps, and `Inv(Strict, s)` is the
intended one.

## Model

| member | source | states |
|---|---|---|
| RingBuffer.Slot | debugme/ring-buffer/main.go:27 | the slot of a position is in `[0, len)` and is the position's remainder modulo `len` |
| RingBuffer.SlotInjective | debugme/ring-buffer/main.go:43 | any `len` consecutive positions occupy pairwise different slots |
| RingBuffer.New | debugme/ring-buffer/main.go:48-52 | the buffer `main` builds starts with both counters at zero and `size` zero slots, and satisfies both counter invariants |
| RingBuffer.Read | debugme/ring-buffer/main.go:16-30 | a read is blocked exactly when `readIndex >= writeIndex`; otherwise it returns the slot of `readIndex` and advances `readIndex` by exactly one, leaving `writeIndex` and all slots unchanged; it panics only on a zero-length buffer; it keeps `readIndex <= writeIndex` and the backlog bound of either guard |
| RingBuffer.Write | debugme/ring-buffer/main.go:32-45 | a write is blocked exactly when its guard fails; otherwise it stores the value in the slot of `writeIndex`, advances `writeIndex` by exactly one, and changes neither `readIndex` nor any other slot; it keeps the counter invariant of its guard (`w - r <= len + 1` as written, `<= len` strict) |
| RingBuffer.InclusiveAdmitsOverrun | debugme/ring-buffer/main.go:36-44 | with the guard as written, a write at `readIndex + len` is admitted; it targets the slot of the oldest unread position and leaves the producer `len + 1` ahead; the strict guard refuses it |
| RingBufferRun.Apply | debugme/ring-buffer/main.go:16-45 | one attempted call either changes nothing or is exactly the completed `Write` or `Read` step; it never moves a counter back and advances at most one of them; a write never moves `readIndex` and a read never moves `writeIndex`; a completed write appends its value to the written history and a completed read appends the slot of `readIndex` to the delivered history; the counter invariant is kept |
| RingBufferRun.Run | debugme/ring-buffer/main.go:16-45 | over any sequence of calls, both counters are monotone, they move by at most one per call, the histories only grow, and the counter invariant of the guard holds throughout |
| RingBufferRun.ApplyKeepsRecent | debugme/ring-buffer/main.go:43-44 | under either guard, the slots always hold the last `len` written values, each in the slot of its position |
| RingBufferRun.ApplyKeepsFifo | debugme/ring-buffer/main.go:16-45 | under the strict guard, every call keeps the invariant that the values delivered so far are exactly the first `readIndex` values written, in order, and every unread value is still in its slot |
| RingBufferRun.RunKeepsFifo | debugme/ring-buffer/main.go:16-45 | under the strict guard, the FIFO invariant holds after any sequence of calls |
| RingBufferRun.StrictRunDeliversInOrder | debugme/ring-buffer/main.go:54-69 | with the strict guard and any interleaving, the values read are a prefix of the values written, so there is no reordering, loss or duplication, and the producer is never more than `size` ahead |
| RingBufferRun.InclusiveRunReorders | debugme/ring-buffer/main.go:36-44 | with the guard as written and one slot, write(0) and write(1) are both admitted and the first read returns 1, which breaks the in-order delivery |
| RingBufferRun.Schedule | debugme/ring-buffer/main.go:55-64 | over any interleaving of `main`'s producer and consumer attempts, both counters are monotone, the histories only grow, and the counter invariant of the guard holds throughout |
| RingBufferRun.Warnings | debugme/ring-buffer/main.go:62-76 | the consumer prints at most one warning per value read, and prints none exactly when the values count up from `prev + 1` with no gap |
| RingBufferRun.StrictScheduleKeepsFifo | debugme/ring-buffer/main.go:54-64 | under the strict guard, every interleaving of `main` keeps the FIFO invariant and the history 0, 1, 2, … of written values |
| RingBufferRun.StrictMainNeverWarns | debugme/ring-buffer/main.go:54-69 | with the strict guard, `main` never prints its warning, whatever the interleaving |
| RingBufferRun.InclusiveProducerRunsAhead | debugme/ring-buffer/main.go:36-44 | with the guard as written and no reads, all of the producer's first `size + 1` writes are admitted, and the last `size` values stay in their slots |
| RingBufferRun.InclusiveMainWarns | debugme/ring-buffer/main.go:47-69 | with the guard as written, for every buffer size a backlog of `size + 1` is reachable, the first read returns `size` instead of 0, and `main` prints a warning |
| Redistribution.Split | debugme/deadlock/main.go:72-73 | for a positive difference and a positive count, `each * n + remainder == delta` with `0 <= remainder < n` and `each >= 0` |
| Redistribution.Redistribute | debugme/deadlock/main.go:64-80 | if `amount` does not exceed the selected total, nothing changes; otherwise each selected entry gains `each` and the remainder entry also gains the remainder, unselected entries are unchanged, and no entry decreases; it panics (division by zero) exactly when no index is given and `amount > 0` |
| Redistribution.TotalOfShares | debugme/deadlock/main.go:75-80 | adding the shares to distinct selected entries raises their sum by `n * each`, plus the remainder if the remainder entry is selected |
| Redistribution.RedistributedTotal | debugme/deadlock/main.go:64-80 | after a redistribution, the selected total is `amount` if the remainder entry is selected, and `amount - remainder` otherwise |
| Redistribution.SumSelected | debugme/deadlock/main.go:64-67 | the first loop computes the sum of the selected entries |
| Redistribution.AddSharesByIndex | debugme/deadlock/main.go:75-80 | the second loop as written adds `each` to each selected entry, and adds the remainder only to the entry with data index `len(indices) - 1` |
| Redistribution.AddSharesByPosition | debugme/deadlock/main.go:75-80 | the corrected second loop adds the remainder to the last listed entry |
| Redistribution.IncreaseTotal | debugme/deadlock/main.go:53-81 | `increaseTotal` as written agrees with `Redistribute` when the remainder entry is data index `n - 1`; the new selected total equals `amount` exactly when index `n - 1` was selected or the remainder is zero, and is `amount - remainder` otherwise |
| Redistribution.IncreaseTotalToAmount | debugme/deadlock/main.go:64-80 | with the remainder given to the last listed entry, the selected entries add up to exactly `amount` whenever they were below it |
| Redistribution.AsWrittenMissesAmount | debugme/deadlock/main.go:77-79 | for entries [0, 0, 0], indices [0, 2] and amount 3, the rule as written gives [1, 0, 1] (selected total 2); the corrected rule gives [1, 0, 2] |
| Redistribution.ChooseIndices | debugme/deadlock/main.go:33-45 | the chosen indices are pairwise distinct and in `[0, size)`, each was drawn, every consumed draw was chosen or repeated a chosen one, and fewer than `count` are chosen only if the draws ran out |

## Left out

- The mutex, the spin-poll loops and the goroutines of the ring buffer are not modelled. Each completed call is one atomic step, because the lock is held across the body: exclusively by `write`, and shared by `read`, which is atomic only because `main` runs a single consumer (several concurrent readers could race on `readIndex`). A failed admission check is a call that changes nothing. Liveness and fairness (that a blocked side eventually proceeds) are not modelled.
- RingBufferRun.StrictRunDeliversInOrder: states no reordering, no duplication and the backlog bound. It does not state that every written value is eventually read, because that is a liveness property of the scheduler.
- RingBufferRun.Run: requires a non-empty buffer. With a zero-length buffer, the first admitted call panics on `% 0`; `RingBuffer.Read` and `RingBuffer.Write` model that as their `Panic` outcome.
- The `uint64` wrap-around of the counters and of `readIndex + len` is not modelled; counters are unbounded naturals.
- Go's 64-bit `int` overflow in `increaseTotal` (the total, the entries) is not modelled; values are unbounded integers.
- The per-element lock order in `increaseTotal` is not modelled. It is the deadlock the program demonstrates, which is about concurrency, not arithmetic. Duplicate indices, which would lock one mutex twice, are excluded by `ValidIndices`.
- `rand` is a parameter. The draws of `rand.Intn(size)` are a finite sequence given to `ChooseIndices`, which stops when they run out. The amount `rand.Intn(i + len(indices))` is an arbitrary `amount`.
- Printing, the `v % size == 0` progress dots, and the infinite driver loops are not modelled (output only).
- `debugme/ring-buffer/controller/main.go` (the external progress probe) is not modelled. It drives `dlv` over JSON-RPC and parses counters from breakpoint output, which is all I/O. Its one computation, `writeIndex - readIndex`, is bounded by `RingBuffer.Inv`.
- `debugme/sqrt/main.go` (floating-point square root behind a memo map), `debugme/memory-leak/main.go`, and the HTTP, pprof, compression, DNS and goroutine-leak programs are not modelled. They are I/O or thin calls into libraries outside this model.

## Findings

| source | as written | input that shows it | evidently intended | confidence | as-written member | corrected member |
|---|---|---|---|---|---|---|
| debugme/ring-buffer/main.go:36 | the write guard is `writeIndex <= readIndex + len(buffer)`, so the producer may get `len + 1` ahead and overwrite the oldest unread slot | capacity 1: write(0), write(1), read() returns 1; for any size, `size + 1` writes then a read returns `size` instead of 0 | `writeIndex < readIndex + len(buffer)`, so that values are delivered in order | not executed; the demo program may contain this bug on purpose as a debugging exercise | RingBufferRun.InclusiveRunReorders | RingBufferRun.StrictRunDeliversInOrder |
| debugme/deadlock/main.go:77 | the remainder goes to the entry whose data index `i` equals `len(indices) - 1`, so it is lost unless that index is selected | entries [0, 0, 0], indices [0, 2], amount 3: the result is [1, 0, 1], so the selected total is 2, not 3 | compare the loop position with `len(indices) - 1`, so that the selected total becomes `amount` | not executed; medium, because the program exists to demonstrate a deadlock | Redistribution.AsWrittenMissesAmount | Redistribution.IncreaseTotalToAmount |
