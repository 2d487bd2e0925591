# Verified models of the goish runtime and standard library

goish is a Rust port of Go's runtime and standard library. This Dafny project models the parts of
it that are hardest to get right and proves what they promise, for all inputs, all schedules and
all reachable states.

**Channels and `select!`.** `Channels` is the wait-queue implementation as a state machine. A step is
a critical section that claims at most one waiter, or one claim of a `Close`, and steps interleave
arbitrarily. `ChannelInvariant` proves the invariant of every run. `ChannelSpec` is an independent abstract machine of the rules in
the sections "Select statements", "Channel types" and "Close" of The Go Programming Language
Specification. `ChannelRefinement` proves that every run of the implementation is a behaviour of
that machine, and draws the client-level conclusions: FIFO delivery without loss or duplication,
draining after close, one claim per select, death exactly where the past of the run prescribes it.
`ChannelOrder` adds what the queues give beyond the specification: on each side of a channel,
goroutines are served in the order in which they blocked.
`Workload` and `Programs` prove that the goroutine programs built on channels cannot deadlock, cannot run for ever,
and end with the totals they check, for every number of channels, all capacities, every N and every
schedule. `SudogQueue`, `SelectOrder` and `LockFreeRing` are the structures below: the intrusive
wait queue, the lock and poll orders of a select with their freedom from deadlock, and the ring that
buffers values. `RingProtocol` is the ring as its own documentation has it, shared by any number of
producers and consumers, one access to shared memory at a time.

**Big integers.** `Limbs`, `LongDivision` (Algorithm D), `BitVectors`, `BigInt`, `Modular` and
`BigIntObject` go from 32-bit limbs in 64-bit words up to the receiver-updating methods of `big.Int`:
exact arithmetic, both divisions, infinite two's complement on sign-magnitude numbers, greatest
common divisors, inverses and exponentiation.

**Codecs and checksums.** ascii85, base64 and varints with their streaming and in-place forms, DER
headers, integers, bit strings, object identifiers, sequences and sets (X.690 sections 8.1, 8.3, 8.6,
8.19, 10.1 and 11.6), Adler-32 (section 8.2 of RFC 1950). Each decoder is related to its encoder in
both directions. `Ascii85Text`, `Base64Text` and `DerRefusals` say what the decoders make of every
other input, from the text alone: the bytes it means by place values, and which error it gets where.

**Buffered reading.** `Bufio` is the buffered reader over a source that fragments its data in any
way.

`Bytes` and `Arithmetic` hold what the modules share.

## Properties that turned out to fail

Seven promises do not hold of the code as it is. Each is modelled as the code has it, with the exact
condition under which the promise holds.

- A ring of one slot cannot tell "full" from "ready" (`LockFreeRing.SendVerdicts`,
  `LockFreeRing.OneSlotOverrun`). Channels are not affected: they compare length and capacity before
  they send.
- The ring is a bounded first-in first-out queue for every schedule, but its refusals are not those of
  one: "full" is right if and only if no consumer is between claiming and freeing the slot the
  producer looks at, and "empty" if and only if no producer is between claiming and publishing the
  ticket at the head (`RingProtocol.RefusedIffFull`, `RingProtocol.NoneIffEmpty`; a run for each in
  `RingProtocol.RefusedWhileEmpty` and `RingProtocol.NoneWhileFilled`).
- `ascii85.Decode` sizes its destination from the length of the input and stops without an error
  when it is full, so input with many `z` groups comes back short (`Ascii85.DecodeUndoesEncode`,
  `Ascii85.ZerosAreTruncated`).
- `ascii85.MaxEncodedLen` bounds every encoding, but is the maximum only for whole groups of four bytes
  (`Ascii85.MaxReached`).
- `base64.NewEncoding` accepts an alphabet that contains the padding character
  (`Base64Decode.RoundTrip`, `Base64Decode.Confused`, `Base64Decode.ConfusedEncoding`).
- DER headers round-trip only for classes from 0 to 3, and tags and lengths from 0 to 2^31 - 1
  (`DerHeader.HeaderRoundTrip`).
- `UnreadByte` puts back the byte that was recorded last. A read that fills the buffer records none,
  so after it the byte put back is an older one: the stream is restored if and only if the recorded
  byte equals the last byte read (`Bufio.Reader.UnreadByte`, `Bufio.UnreadAfterFullBuffer`).

Where a comment in the repository and its recorded results differ, the model follows the code:
`00 80` is the DER integer 128 (examples/asn1_ref_smoke.rs:29-31 says it is refused), and five
ascii85 digits above 2^32 wrap instead of failing (examples/ascii85_ref_smoke.rs:25-26).

## Conventions

Machine integers are mathematical integers with their width written out: 64-bit indices, 32-bit
sums and 64-bit registers wrap explicitly, and products of limbs are shown to fit in 64 bits.
Shifts are multiplications and divisions by powers of two. An `|` of words whose bits do not overlap
is written as a sum. A panic is a precondition, except where the operation is about the panic
(`NewEncoding`, `WithPadding`), which then returns an option. Random numbers, the answers of
readers and writers, and spurious failures of a weak compare-exchange are parameters.

A critical section of a channel is one step when it claims at most one waiter. Its locks keep every
other operation away from the channels it names, and all it shares beyond them are the claim words of
parked goroutines: a claim that failed stays failed, and what follows the one that succeeds touches
only the locked channels and the claimed entry. The section thus happens at its successful claim, or
at its last failed one. A `Close` claims many waiters under one lock, and a waker on another channel
may claim a select in between (`ChannelRefinement.ClosesShareSelects`), so it is several steps: mark
the channel, one step for each queue entry, give the lock back. Until then no other operation on that
channel can start.

## Model

| member | source | states |
|---|---|---|
| Channels.FirstLive | src/gochan.rs:246-262 | the first queue entry whose claim succeeds; every entry before it is stale |
| Channels.Pass1 | src/select_macro.rs:459-513 | pass 1 stops at the first case in poll order that does not block |
| Channels.FirstTrue | src/select_macro.rs:771-819 | pass 3 dispatches the first case that reports winning |
| ChannelInvariant.InitInv | src/gochan.rs:393-410 | fresh channels and ready goroutines satisfy the channel invariant |
| ChannelInvariant.ClaimableIffLive | src/gochan.rs:634-644 | a queue entry can be claimed exactly when its goroutine is parked and unclaimed |
| ChannelInvariant.TryRecvInv | src/gochan.rs:504-548 | a receive attempt keeps the invariant: empty queues of the wrong kind, no waiter on a channel that could serve it |
| ChannelInvariant.RecvFromSenderInv | src/gochan.rs:504-548 | receiving from a full buffer moves a parked sender's value to the tail and keeps the invariant |
| ChannelInvariant.TrySendInv | src/gochan.rs:556-585 | a send attempt keeps the invariant |
| ChannelInvariant.BlocksMeans | src/gochan.rs:504-585 | an attempt that blocks means: a full buffer for a send, an empty one for a receive, not closed, and no live partner parked |
| ChannelInvariant.RegisterQueues | src/gochan.rs:592-610 | parking puts exactly one entry per non-nil case into the queues, without duplicates |
| ChannelInvariant.RegisterAppends | src/gochan.rs:592-610 | after parking the old queue is a prefix of the new one, and behind it stand the entries of the newcomer's cases on that side, in their order |
| ChannelInvariant.ParkInv | src/select_macro.rs:632-759 | parking a select or a plain operation keeps the invariant |
| ChannelInvariant.CancelInv | src/gochan.rs:804-818 | cancelling a losing case removes exactly its entry |
| ChannelInvariant.WinnerIsClaim | src/select_macro.rs:771-819 | after pass 3 the only case reported as winner is the claimed one |
| ChannelInvariant.MarkInv | src/gochan.rs:980-991 | a close that has just marked its channel keeps the invariant, although waiters are still parked on a closed channel |
| ChannelInvariant.SweepInv | src/gochan.rs:993-1023 | each claim of a close keeps the invariant, and when it gives its lock back nobody is left waiting on the channel, whatever other wakers did in between |
| ChannelInvariant.CloseGoesOn | src/gochan.rs:993-1023 | a close under way can always take its next step, and each one is a unit of the work it has left |
| ChannelInvariant.LockedAlone | src/gochan.rs:985-1023 | while a close holds its lock no other step changes anything of the channel, and once it has given the lock back the channel stays closed and unlocked |
| ChannelInvariant.CloseEnds | src/gochan.rs:980-1023 | over every run a close holds its lock for exactly its own work, neither longer nor shorter, and the channel is closed for ever |
| ChannelInvariant.StepInv | src/gochan.rs:504-1023 | every step of every goroutine keeps the invariant |
| ChannelInvariant.RunInv | src/gochan.rs:504-1023 | the invariant holds in every state of every interleaving of steps, closes under way included |
| ChannelSpec.Fifo | examples/chan_buffered.rs:97-174 | in the abstract machine, received values followed by buffered ones are the initial buffer followed by the sent values |
| ChannelSpec.Bounded | examples/chan_buffered.rs:4-14 | the buffer never holds more than its capacity |
| ChannelSpec.CloseDrains | examples/chan_buffered.rs:178-272 | after close the n-th receive gets the n-th buffered value, then (zero, false) for ever; nothing is sent; capacity and closedness stay |
| ChannelSpec.DecidedByLast | src/gochan.rs:634-644 | over every behaviour, a goroutine that has communicated was decided by the last event it took part in |
| ChannelSpec.ClosedIff | src/gochan.rs:980-1023 | over every behaviour, a channel is closed if and only if it was or somebody closed it |
| ChannelSpec.TurnedAwayByClose | src/gochan.rs:1005-1023 | over every behaviour, a sender whose last event is being turned away stands on a closed channel |
| ChannelRefinement.NoLostWakeup | src/gochan.rs:504-585 | in every reachable state the only communication still possible for a blocked goroutine is to be told of a close that is under way on that channel: nothing else that should have happened is left waiting |
| ChannelRefinement.TryRefines | src/gochan.rs:504-585 | a firing attempt is a communication the Go specification allows |
| ChannelRefinement.Pass1Complete | src/select_macro.rs:459-513 | when pass 1 finds nothing, no case of the select could proceed |
| ChannelRefinement.ParkRefines | src/select_macro.rs:632-759 | parking is blocking, with no communication possible |
| ChannelRefinement.MarkRefines | src/gochan.rs:980-991 | marking the channel is the abstract close |
| ChannelRefinement.SweepRefines | src/gochan.rs:993-1023 | a later step of a close is the answer to one waiter, or invisible |
| ChannelRefinement.ClosesShareSelects | src/gochan.rs:971-975 | two closes under way at once can share two parked selects, each claiming one of them |
| ChannelRefinement.CancelRefines | src/gochan.rs:804-818 | cleaning up a losing case is invisible |
| ChannelRefinement.StepRefines | src/gochan.rs:504-1023 | every step refines a sequence of events of the abstract machine of Go's channel rules |
| ChannelRefinement.RunRefines | README.md:317-319 | every run of the wait-queue implementation is a behaviour of the abstract machine |
| ChannelRefinement.ReceivedIsPrefixOfSent | examples/chan_buffered.rs:4-14 | in every run from fresh channels the received values followed by the buffered ones are exactly the sent values, in order, within capacity |
| ChannelRefinement.ClosedChannelDrains | examples/chan_close_ref_smoke.rs:13-26 | on a closed channel, in any schedule, exactly the first min(m, r) of r receives get the m buffered values, all others (zero, false); capacity stays |
| ChannelRefinement.SelectClaimedOnce | README.md:317-319 | a woken select was claimed by exactly one case, its losing entries were never written, and pass 3 finds the claimed case |
| ChannelRefinement.FatalAsPrescribed | src/gochan.rs:842-1023 | in every run from fresh channels a step kills the process if and only if the events before it say so: a send on a channel that was closed, a goroutine whose last communication was being turned away from a closed channel while parked in a send, a close of a nil channel or of one that was closed; and a sender that was turned away was parked on a channel that is closed |
| ChannelRefinement.WokenByLast | src/gochan.rs:842-940 | a woken goroutine carries case, value and success of the last communication it took part in |
| ChannelOrder.ParkLines | src/gochan.rs:592-610 | parking keeps every queue in the order in which its live goroutines blocked |
| ChannelOrder.StepLines | src/gochan.rs:504-1023 | so does every other step |
| ChannelOrder.FirstComeFirstServed | src/gochan.rs:246-262 | in every run from fresh channels, who communicates on one side of a channel, or is turned away there by a close, blocked before everybody who stands by on that side and is left standing; plain operations and selects alike |
| ChannelOrder.ReceiversFirst | src/gochan.rs:993-1023 | in every run, a goroutine turned away as a sender by a close had no case that receives from the same channel |
| Workload.FireEffect | src/gochan.rs:504-585 | an attempt that fires on an open channel moves one buffered value or meets exactly one live partner |
| Workload.AdvanceKeeps | examples/chan_micro_select_only.rs:48-108 | every step keeps the balance of what is left to send, to receive and buffered on each channel, and strictly decreases the measure |
| Workload.DeadlockFree | examples/chan_micro_select_only.rs:48-123 | every reachable unfinished state has an enabled step |
| Workload.EveryRunCompletes | examples/chan_micro_select_only.rs:48-123 | for any balanced workload: runs are bounded, never stuck, never fatal, and end with all quotas done and all buffers empty |
| Programs.WorkIsMixed | examples/chan_micro_select_only.rs:48-108 | the selecting goroutines of a program work on every channel, the plain ones each on its own |
| Programs.ProgramStarts | examples/chan_micro_select_only.rs:36-47 | the five programs start in a balanced state, for all capacities and N |
| Programs.ProgramTotals | examples/chan_micro_select_only.rs:109-123 | the totals each side has to reach |
| Programs.ProgramCompletes | examples/chan_micro_select_send_only.rs:36-79 | for every number of channels, capacities, N and schedule each program completes with the checked totals |
| Programs.CheckedTotals | examples/chan_micro_no_select.rs:52-92 | the totals are k*N, and 2*k*N for the stress program |
| SudogQueue.Queue.PushBack | src/gochan.rs:232-243 | appends a node to the intrusive list |
| SudogQueue.Queue.PopFront | src/gochan.rs:246-262 | removes and returns the first node |
| SudogQueue.Queue.Unlink | src/gochan.rs:267-284 | removes a node from anywhere in the list, keeping the order of the rest |
| SudogQueue.Queue.Cancel | src/gochan.rs:289-301 | removes the node if it is queued, and reports whether it was |
| SudogQueue.Queue.IsEmpty | src/gochan.rs:226-228 | the head is null exactly when no node is queued |
| SelectOrder.SortAtoms | src/select_macro.rs:383-395 | insertion sort of the channel addresses: sorted and a permutation |
| SelectOrder.CompactAtoms | src/select_macro.rs:396-408 | dedup keeps each address once, strictly ascending |
| SelectOrder.LockOrder | src/select_macro.rs:378-408 | sorting and compaction give the strictly ascending list of exactly the addresses named |
| SelectOrder.LockChannels | src/select_macro.rs:378-421 | the lock calls of a select: each channel among its cases once, by ascending address, and none for a nil channel |
| SelectOrder.PollOrder | src/select_macro.rs:424-434 | the in-place shuffle computes the order of the draws, a permutation of the cases |
| SelectOrder.DrawsDetermined | src/select_macro.rs:424-434 | different draws give different orders |
| SelectOrder.EveryOrderIsDrawn | src/select_macro.rs:424-434 | every permutation of the cases comes from some draws, and so from exactly one sequence of them: uniform draws make a uniform order |
| SelectOrder.NoLockDeadlock | src/select_macro.rs:378-421 | for every number of goroutines, every list of critical sections with ascending locks and every schedule: no lock is held twice, somebody can go on until all are done, and a run is as long as the work |
| SelectOrder.HeldIff | src/select_macro.rs:409-421 | a lock is held from the turn that takes it up to the turn that frees it |
| SelectOrder.TakeRunOk | src/select_macro.rs:409-421 | every schedule keeps mutual exclusion, and every step does one unit of the work |
| LockFreeRing.RoundUp | src/runtime/lockfree_ring.rs:90-105 | the least power of two that is at least the capacity, and at least 1 |
| LockFreeRing.SendVerdicts | src/runtime/lockfree_ring.rs:127-169 | what a producer concludes from a slot; a full ring is refused if and only if it has at least two slots |
| LockFreeRing.RecvVerdicts | src/runtime/lockfree_ring.rs:172-208 | a consumer claims a value exactly when there is one |
| LockFreeRing.OneSlotOverrun | src/runtime/lockfree_ring.rs:127-208 | the failing family: a one-slot ring accepts a second value and then makes consumers retry for ever |
| LockFreeRing.SlotOfWrapped | src/runtime/lockfree_ring.rs:127-135 | the masked 64-bit index names the right slot even after the index wraps |
| LockFreeRing.Ring.constructor | src/runtime/lockfree_ring.rs:90-105 | an empty ring of the rounded capacity |
| LockFreeRing.Ring.Len | src/runtime/lockfree_ring.rs:116-120 | the wrapped distance of the indices is the number of queued values |
| LockFreeRing.Ring.TrySend | src/runtime/lockfree_ring.rs:127-169 | appends the value, or refuses exactly when full with at least two slots; a full ring of one slot overwrites its value and is overrun |
| LockFreeRing.Ring.TryRecv | src/runtime/lockfree_ring.rs:172-208 | removes the oldest value, or reports empty exactly when empty |
| RingProtocol.StepInv | src/runtime/lockfree_ring.rs:127-208 | every access to shared memory by any thread keeps the life of every ticket and the number of every slot in order |
| RingProtocol.SlotIsFree | src/runtime/lockfree_ring.rs:127-169 | a producer that wins its compare-exchange owns a slot that is free, however old the number it saw |
| RingProtocol.ValueIsThere | src/runtime/lockfree_ring.rs:172-208 | a consumer that wins its compare-exchange finds its value published |
| RingProtocol.RunIsQueueRun | src/runtime/lockfree_ring.rs:1-26 | in every run the won compare-exchanges are the puts and gets of a first-in first-out queue within the capacity |
| RingProtocol.RunMatches | src/runtime/lockfree_ring.rs:127-208 | every call returns what its own put or get says, and a call without one has changed nothing |
| RingProtocol.RingRuns | src/runtime/lockfree_ring.rs:64-88 | both, for every run of a fresh ring of at least two slots and any number of threads |
| RingProtocol.RefusedIffFull | src/runtime/lockfree_ring.rs:156-161 | a refused send means a full queue if and only if no consumer is between claiming and freeing that slot |
| RingProtocol.NoneIffEmpty | src/runtime/lockfree_ring.rs:198-202 | finding nothing means an empty queue if and only if no producer is between claiming and publishing the ticket at the head |
| RingProtocol.RefusedWhileEmpty | src/runtime/lockfree_ring.rs:156-161 | the failing run: every value taken, one by a call that has returned, and a send refused |
| RingProtocol.NoneWhileFilled | src/runtime/lockfree_ring.rs:198-202 | the failing run: a send has returned, nothing was received, and a receive finds nothing |
| Limbs.TrimmedUnique | src/math/big/mod.rs:3552-3557 | a magnitude has exactly one trimmed vector |
| Limbs.AbsCmp | src/math/big/mod.rs:3042-3055 | the order of the values |
| Limbs.AddLimbs | src/math/big/mod.rs:3242-3258 | the sum, trimmed |
| Limbs.SubLimbs | src/math/big/mod.rs:3261-3281 | the difference, trimmed |
| Limbs.MulLimbs | src/math/big/mod.rs:3221-3239 | the product, trimmed; no 64-bit step overflows |
| LongDivision.ShlSmall | src/math/big/mod.rs:3078-3097 | multiplication by 2^s |
| LongDivision.ShrSmall | src/math/big/mod.rs:3101-3123 | division by 2^s, the rest being what was shifted out |
| LongDivision.DivModByLimb | src/math/big/mod.rs:3059-3074 | quotient and remainder by one limb |
| LongDivision.EstimateDigit | src/math/big/mod.rs:3169-3180 | the refined estimate is the exact three-by-two-limb quotient capped at the largest limb, after at most two corrections |
| LongDivision.MulSub | src/math/big/mod.rs:3182-3194 | multiply and subtract in place, with the final borrow |
| LongDivision.AddBack | src/math/big/mod.rs:3196-3206 | adding the divisor back, dropping the carry |
| LongDivision.DivDigit | src/math/big/mod.rs:3168-3207 | one digit of Algorithm D: the window becomes its remainder by the divisor and the digit is its quotient |
| LongDivision.NormalisedDivisor | src/math/big/mod.rs:3152-3159 | normalisation keeps the length of the divisor and sets its top bit |
| LongDivision.DivModLimbs | src/math/big/mod.rs:3132-3217 | num = q * den + r with r < den, for all magnitudes |
| BigInt.NumUnique | src/math/big/mod.rs:910-942 | sign and trimmed magnitude represent a number in one way |
| BigInt.AddNum | src/math/big/mod.rs:3891-3914 | signed addition for all sign combinations |
| BigInt.QuoRemNum | src/math/big/mod.rs:1345-1397 | truncated division: the remainder has the sign of the dividend |
| BigInt.DivModNum | src/math/big/mod.rs:1272-1341 | Euclidean division: the remainder is at least 0 and below the magnitude of y |
| BigInt.EuclideanUnique | src/math/big/mod.rs:1272-1341 | such a quotient and remainder are unique |
| BitVectors.BitIsShift | src/math/big/mod.rs:1472-1491 | the recursive bit is the floor shift taken modulo 2 |
| BitVectors.BitsDetermine | src/math/big/mod.rs:1472-1491 | integers with the same infinite two's complement bits are equal |
| BitVectors.ValueBit | src/math/big/mod.rs:3781-3787 | bit i of a magnitude is bit i%32 of limb i/32 |
| BitVectors.AndLimbs | src/math/big/mod.rs:3847-3854 | every bit of the result is the conjunction |
| BitVectors.AndNotLimbs | src/math/big/mod.rs:3857-3866 | every bit of the result is x and not y |
| BitVectors.MergeLimbs | src/math/big/mod.rs:3869-3888 | every bit of the result is the disjunction, or the exclusive or |
| BitVectors.LimbBit | src/math/big/mod.rs:3781-3787 | the bit of the magnitude |
| BitVectors.LimbSetBit | src/math/big/mod.rs:3790-3805 | exactly one bit changes, whatever the vector's length |
| BitVectors.LshLimbs | src/math/big/mod.rs:3808-3825 | multiplication by 2^s for any s |
| BitVectors.RshLimbs | src/math/big/mod.rs:3828-3844 | floor division by 2^s for any s |
| BigIntObject.Int.Add | src/math/big/mod.rs:1408-1415 | the sum, also when an operand is the receiver |
| BigIntObject.Int.Sub | src/math/big/mod.rs:1434-1446 | the difference |
| BigIntObject.Int.Mul | src/math/big/mod.rs:1246-1254 | the product |
| BigIntObject.Int.QuoRem | src/math/big/mod.rs:1375-1397 | truncated quotient and remainder into two receivers |
| BigIntObject.Int.DivMod | src/math/big/mod.rs:1302-1341 | Euclidean quotient and remainder |
| BigIntObject.Int.GCD | src/math/big/mod.rs:1126-1199 | the greatest common divisor of the magnitudes; the cofactors given to x and y, together or alone, are those of one Bezout identity, the first below the second operand in magnitude |
| BigIntObject.Int.ModInverse | src/math/big/mod.rs:1210-1241 | the inverse, reduced modulo the magnitude of n, if and only if coprime; otherwise the receiver is unchanged |
| BigIntObject.Int.Exp | src/math/big/mod.rs:1023-1113 | x^y; with a modulus the non-negative residue; a negative exponent gives the inverse power when one exists and otherwise leaves the receiver unchanged; with m = 0 it gives 1 |
| BigIntObject.Int.BitAt | src/math/big/mod.rs:1472-1491 | the two's complement bit |
| BigIntObject.Int.SetBit | src/math/big/mod.rs:1497-1518 | replaces one bit, negative numbers included |
| BigIntObject.Int.Lsh | src/math/big/mod.rs:1521-1526 | multiplication by 2^n, sign kept |
| BigIntObject.Int.Rsh | src/math/big/mod.rs:1531-1544 | division by 2^n rounded down |
| BigIntObject.RshBits | src/math/big/mod.rs:1531-1544 | a right shift, seen on the bits |
| BigIntObject.LshBits | src/math/big/mod.rs:1521-1526 | a left shift of a number of either sign, seen on the bits |
| BigIntObject.Int.Not | src/math/big/mod.rs:1664-1676 | flips every bit |
| BigIntObject.Int.And | src/math/big/mod.rs:1548-1572 | bitwise and on infinite two's complement for all signs |
| BigIntObject.Int.AndNot | src/math/big/mod.rs:1576-1603 | bitwise and-not for all signs |
| BigIntObject.Int.Or | src/math/big/mod.rs:1607-1632 | bitwise or for all signs |
| BigIntObject.Int.Xor | src/math/big/mod.rs:1636-1660 | bitwise exclusive or for all signs |
| BigIntObject.BitwiseUnique | examples/big_int_ref_smoke.rs:19-26 | the bits leave no freedom: each of these results is the only one |
| Modular.BitLenLimbs | src/math/big/mod.rs:3560-3569 | the bit length of the value |
| Modular.ExpLimbs | src/math/big/mod.rs:1063-1099 | square-and-multiply over exactly BitLen bits gives a number congruent to x^y (equal to it without a modulus) |
| Modular.RestGone | examples/big_exp_diff.rs:3-13 | after BitLen bits nothing of the exponent is left, and before that something is |
| Modular.GcdMagnitudes | src/math/big/mod.rs:1126-1199 | Euclid's loop: gcd, Bezout identity, and the first cofactor below the magnitude of b |
| Modular.GcdDivides | src/math/big/mod.rs:1126-1199 | the gcd divides both numbers |
| Modular.GcdGreatest | src/math/big/mod.rs:1126-1199 | every common divisor divides the gcd |
| Modular.InverseIffCoprime | src/math/big/mod.rs:1210-1241 | an inverse exists if and only if the gcd is 1 |
| Modular.InverseNum | src/math/big/mod.rs:1210-1241 | the Bezout cofactor, brought into range, is the inverse |
| Modular.PowerNum | src/math/big/mod.rs:1056-1113 | non-negative exponents, with and without a modulus, for bases of either sign |
| Modular.InversePower | src/math/big/mod.rs:1029-1054 | the power of the inverse is the inverse of the power |
| Modular.ExpNum | src/math/big/mod.rs:1023-1113 | all cases of Exp |
| Adler32.DeferredModulo | src/hash/adler32/adler32.rs:151-193 | reducing once per block gives what reducing after every byte gives |
| Adler32.BlockFits | src/hash/adler32/adler32.rs:22-64 | no sum of a block of at most 5552 bytes reaches 2^32, for every 32-bit starting state |
| Adler32.NmaxIsLargest | src/hash/adler32/adler32.rs:56-64 | deferring is safe for every block of n bytes if and only if n <= 5552 |
| Adler32.SumBlock | src/hash/adler32/adler32.rs:165-184 | the unrolled and the plain loop compute the unreduced sums, without wrapping |
| Adler32.Update | src/hash/adler32/adler32.rs:151-193 | the definition of section 8.2 of RFC 1950, for every state and input |
| Adler32.ChecksumSplit | examples/adler32_smoke.rs:179-280 | splitting the input changes nothing |
| Adler32.PlaceValues | src/hash/adler32/adler32.rs:97-132 | the word written is the sum of the byte at i times 256^(3 - i), and so is the word read |
| Adler32.MarshalInverse | src/hash/adler32/adler32.rs:97-132 | a state is restored exactly from its own marshaled bytes |
| Adler32.UnmarshalRefuses | src/hash/adler32/adler32.rs:119-132 | bytes are refused for their identifier exactly when they do not begin with the magic, and for their size exactly when they do and are not four more |
| Adler32.Digest.Write | src/hash/adler32/adler32.rs:224-229 | the digest is the checksum of everything written |
| Adler32.Digest.Sum | src/hash/adler32/adler32.rs:244-251 | appends the checksum big-endian |
| Adler32.Digest.MarshalBinary | src/hash/adler32/adler32.rs:108-114 | the marshaled state: the magic and the digest |
| Adler32.Digest.UnmarshalBinary | src/hash/adler32/adler32.rs:119-132 | continues another digest from its marshaled state; a refusal changes nothing |
| Ascii85.EncodeInto | src/encoding/ascii85/ascii85.rs:74-129 | writes the encoding: whole groups, z for four zero bytes, a short tail |
| Ascii85.EncodedLen | src/encoding/ascii85/ascii85.rs:45-48 | MaxEncodedLen bounds every encoding |
| Ascii85.MaxReached | src/encoding/ascii85/ascii85.rs:45-48 | the bound is reached for some input of n bytes if and only if n is a multiple of four |
| Ascii85.DecodeBytes | src/encoding/ascii85/ascii85.rs:153-222 | the in-place loop and flush compute the character-by-character decoding |
| Ascii85.PaddedTail | src/encoding/ascii85/ascii85.rs:203-216 | the truncated base-85 digits of a 1 to 3 byte tail still determine its bytes |
| Ascii85.RoundTrip | examples/ascii85_smoke.rs:72-88 | with white space anywhere, decoding an encoding never fails, gives a prefix of whole groups, and gives everything if and only if the destination has four bytes for each group in the text |
| Ascii85.DecodeUndoesEncode | src/encoding/ascii85/ascii85.rs:137-222 | Decode undoes Encode and consumes everything if and only if the destination, after the automatic sizing, has four bytes for each group in the text |
| Ascii85.RefusedIff | src/encoding/ascii85/ascii85.rs:153-222 | with room enough, Decode reports corrupt input at k if and only if k is the first visible character that is neither a digit nor a z between groups, or there is none, k is the length and the last group is a single digit |
| Ascii85.GroupsOfEncoding | src/encoding/ascii85/ascii85.rs:137-222 | the groups counted in an encoding are the groups of four bytes, the last possibly short |
| Ascii85.SizedWithoutZeroGroups | src/encoding/ascii85/ascii85.rs:137-150 | without a z the automatic sizing is always enough |
| Ascii85.ZerosAreTruncated | src/encoding/ascii85/ascii85.rs:137-150 | with zero groups it is not: of k groups of zeros k / 5 + 2 come back, without an error, so all of them if and only if k is at most 2 |
| Ascii85Text.DecodesAt | src/encoding/ascii85/ascii85.rs:153-222 | for every text, destination and flush: at the end of the text what was read, where the room runs out the whole groups so far, at the first stray character its offset |
| Ascii85Text.DecodesMeaning | src/encoding/ascii85/ascii85.rs:153-222 | with room enough, the bytes are the base-85 place values of each group modulo 2^32; without flush those of the complete groups, with flush also of the open one filled up with the largest digit |
| Ascii85Text.ConsumedWithoutFlush | examples/ascii85_ref_smoke.rs:167-178 | without flush, what is consumed ends just behind the last completed group |
| Ascii85Text.OutOfRoom | src/encoding/ascii85/ascii85.rs:160-163 | where the room runs out the answer is that for the text up to there, without flush |
| Ascii85Text.Resumed | src/encoding/ascii85/ascii85.rs:137-222 | decoding a first part without flush and then the text from where it stopped with flush gives what decoding all of it gives, refusals and their offsets included |
| Ascii85Stream.Encoder.Write | src/encoding/ascii85/ascii85.rs:271-342 | the sink holds the encoding of the whole groups written, the buffer the rest; after a write error nothing more is sent, and the count returned is that of the bytes sent or ends with the one group that was lost |
| Ascii85Stream.Encoder.Close | src/encoding/ascii85/ascii85.rs:347-365 | without a write error the sink has got the one-shot encoding of everything written since the last Close, and a new message begins; with one it is unchanged |
| Ascii85Stream.EncodeAll | examples/ascii85_stream_smoke.rs:66-155 | every split into Writes followed by Close gives the one-shot encoding |
| Base64.NewEncoding | src/encoding/base64/base64.rs:104-141 | accepts exactly 64 distinct bytes without CR or LF, and builds the inverse table |
| Base64.WithPadding | src/encoding/base64/base64.rs:152-170 | accepts exactly no padding, or a byte outside the alphabet that is not CR or LF, and changes nothing else |
| Base64.DigitsForward | src/encoding/base64/base64.rs:242-279 | the digits of one to three bytes decode to those bytes with clear discarded bits |
| Base64.DigitsBackward | src/encoding/base64/base64.rs:468-494 | digits with clear discarded bits are the digits of the bytes they decode to |
| Base64Decode.RoundTrip | examples/base64_encoding_smoke.rs:95-218 | for every alphabet and padding, decoding undoes encoding if and only if the padding is not in the alphabet or there is nothing to pad |
| Base64Decode.Confused | src/encoding/base64/base64.rs:122-139 | the failing family: a padding inside the alphabet makes a padded tail the code of a longer input |
| Base64Decode.ConfusedEncoding | src/encoding/base64/base64.rs:122-139 | an encoding NewEncoding builds with the padding in its alphabet, and every single byte it fails on |
| Base64Decode.StrictIsCanonical | examples/base64_ref_smoke.rs:191-196 | in strict mode an accepted string without CR and LF is the encoding of its bytes; with the padding outside the alphabet acceptance is equivalent to that |
| Base64Code.EncodedLenIsExact | src/encoding/base64/base64.rs:210-216 | EncodedLen is the length of the encoding |
| Base64Code.EncodeInto | src/encoding/base64/base64.rs:242-279 | writes the encoding in place |
| Base64Code.GatherDigits | src/encoding/base64/base64.rs:391-466 | the digit loop of a quantum: newlines, padding, trailing garbage and every refusal with its offset |
| Base64Code.FastQuantum | src/encoding/base64/base64.rs:504-535 | four symbols in a row are decoded by the fast path as by a quantum |
| Base64Code.QuantumFits | src/encoding/base64/base64.rs:220-222 | DecodedLen bounds what can still be written |
| Base64Code.DecodeInto | src/encoding/base64/base64.rs:308-379 | the three loops compute what decoding quantum by quantum computes, error and offset included |
| Base64Code.DecodedLenReached | src/encoding/base64/base64.rs:220-222 | DecodedLen is the maximum: some text of every length decodes to so many bytes |
| Base64Text.DecodeIsVerdict | src/encoding/base64/base64.rs:380-497 | for every encoding and text, decoding quantum by quantum gives what one pass over the text gives: the bytes of the whole groups, and how the open one ends at the first character that is no symbol, error and offset included |
| Base64Text.AcceptedIff | examples/base64_ref_smoke.rs:185-200 | for every encoding, strict or not: Decode succeeds with b if and only if the text without newlines spells digits in groups of four, the last with its padding, and b is the first bytes of their base-64 place value; the spare bits matter to a strict encoding alone |
| Base64Stream.Encoder.Write | src/encoding/base64/base64.rs:647-714 | the sink holds the encoding of the whole groups written, the buffer the rest; after a write error nothing more is sent, and the count returned is that of the bytes sent or ends with the one group that was lost |
| Base64Stream.Encoder.Close | src/encoding/base64/base64.rs:719-735 | without a write error the sink has got the one-shot encoding of everything written since the last Close, and a new message begins; with one it is unchanged |
| Base64Stream.EncodeAll | examples/base64_stream_smoke.rs:89-195 | every split into Writes followed by Close gives the one-shot encoding |
| DerHeader.AppendBase128 | src/encoding/asn1/marshal.rs:69-85 | minimal base 128 |
| DerHeader.AppendLength | src/encoding/asn1/marshal.rs:101-111 | minimal base 256 |
| DerHeader.AppendTagAndLength | src/encoding/asn1/marshal.rs:115-139 | identifier and length octets, for all values of the fields, negative ones included |
| DerHeader.ParseBase128Int | src/encoding/asn1/mod.rs:611-646 | the loop computes the recursive parse, refusals included |
| DerHeader.TagIff | src/encoding/asn1/mod.rs:611-646 | the tag parser accepts exactly the minimal encodings of numbers up to 2^31 - 1 |
| DerHeader.ParseTagAndLength | src/encoding/asn1/mod.rs:878-966 | the loops compute the recursive parse, refusals included |
| DerHeader.HeaderIff | examples/asn1_ref_smoke.rs:77-88 | a parse succeeds with these fields and this end if and only if the bytes are the ones the encoder writes and the fields fit |
| DerRefusals.RefusedIff | src/encoding/asn1/mod.rs:878-966 | a header is refused with this error at this offset if and only if the bytes say so, for each of the ten errors |
| DerHeader.HeaderRoundTrip | examples/asn1_marshal_smoke.rs:119-185 | parsing an appended header returns it and consumes exactly its bytes if and only if the class is 0 to 3 and tag and length are 0 to 2^31 - 1 |
| DerInteger.CheckIff | src/encoding/asn1/mod.rs:227-243 | CheckInteger accepts exactly the encoder's strings |
| DerInteger.ShortestAndUnique | src/encoding/asn1/mod.rs:227-243 | no two's complement string of the same number is shorter, and only the encoder's is as short |
| DerInteger.EightBytes | src/encoding/asn1/mod.rs:247-275 | eight bytes hold exactly the 64-bit numbers |
| DerInteger.ParseInt64 | src/encoding/asn1/mod.rs:247-275 | accumulation and sign extension in a 64-bit register give the value, or the refusal |
| DerInteger.ParseIff | examples/asn1_ref_smoke.rs:89-99 | a string parses to x if and only if it is the encoder's string for a 64-bit x |
| DerInteger.ParseInt32 | src/encoding/asn1/mod.rs:279-293 | the same for 32-bit numbers, with the refusals of empty and of longer than necessary strings |
| DerInteger.RefusedIff | src/encoding/asn1/mod.rs:227-262 | a string is refused as empty, as not the shortest for its number, or as a number of more than 64 bits, each exactly when it is |
| DerInteger.ContentLen | src/encoding/asn1/marshal.rs:223-238 | the length of the shortest string |
| DerInteger.EncodeInt64 | src/encoding/asn1/marshal.rs:241-250 | writes the shortest string in place and nothing beyond it |
| DerSet.LenIsLength | src/encoding/asn1/marshal.rs:157-542 | Len is the number of bytes written, for every nesting of encoders and every arc, negative ones included |
| DerSet.AscendingUnique | src/encoding/asn1/marshal.rs:474-494 | an ascending arrangement is unique, so neither the sorting algorithm nor its stability matters |
| DerSet.SetIsSortedConcatenation | src/encoding/asn1/marshal.rs:474-494 | a SET is the concatenation of its element encodings in ascending order |
| DerSet.PermutationInvariant | examples/asn1_marshal_smoke.rs:307-385 | a SET encodes the same under every permutation of its elements |
| DerSet.ElementsPrefixFree | src/encoding/asn1/marshal.rs:458-473 | no element encoding is a proper prefix of another |
| DerSet.PaddingIrrelevant | src/encoding/asn1/marshal.rs:458-473 | for element encodings, comparing without the zero padding of X.690 section 11.6 is comparing with it |
| DerSet.FieldIsElement | src/encoding/asn1/marshal.rs:1337-1352 | what makeField builds around a body, with a header that fits, encodes to an element |
| DerSet.SetInPaddedOrder | src/encoding/asn1/marshal.rs:458-494 | a SET of such fields is its elements in the padded order of X.690 section 11.6 |
| DerValues.MultiAppend | src/encoding/asn1/marshal.rs:421-437 | the parts of a sequence are written one behind the other, in their order |
| DerValues.PartAt | src/encoding/asn1/marshal.rs:421-437 | the bytes of part i stand at the sum of the lengths before it |
| DerValues.ByteByByte | src/encoding/asn1/marshal.rs:166-196 | bytes written one at a time are the bytes written at once |
| DerValues.IntegerReadsBack | src/encoding/asn1/marshal.rs:220-253 | an integer reads back as itself if and only if it has 64 bits |
| DerValues.RawIff | src/encoding/asn1/mod.rs:974-1028 | ParseRaw reads one element exactly when the data starts with the octets of a header that fits and as many bytes as it announces, and leaves the rest |
| DerValues.FieldReadsBack | src/encoding/asn1/marshal.rs:1337-1352 | a field is read back as its header and its body, whatever follows |
| DerValues.ElementsIff | src/encoding/asn1/mod.rs:974-1028 | data is cut into elements exactly when it is those elements, one behind the other |
| DerValues.SequenceReadsBack | src/encoding/asn1/marshal.rs:421-437 | a sequence of fields is cut into those fields, in their order |
| DerValues.SetReadsBack | src/encoding/asn1/marshal.rs:474-494 | a set of fields is cut into the same fields, in the order of X.690 section 11.6 |
| DerValues.UnusedBits | src/encoding/asn1/marshal.rs:265-275 | the first byte of a bit string is the number of bits, below eight, that complete its last byte |
| DerValues.BitsIff | src/encoding/asn1/mod.rs:349-395 | n bits are read exactly from what the encoder writes for n bits with zeros behind them |
| DerValues.ParseBitString | src/encoding/asn1/mod.rs:349-395 | the checks and the copy loop compute that parse |
| DerValues.OidDetermined | src/encoding/asn1/marshal.rs:296-310 | object identifiers that encode alike are equal, and the first number of the code, over 40 and at most 2, is the first arc |
| DerValues.OidIff | src/encoding/asn1/mod.rs:517-565 | arcs are read exactly from what the encoder writes for arcs that makeObjectIdentifier accepts, if each number has 31 bits |
| DerValues.ParseObjectIdentifier | src/encoding/asn1/mod.rs:517-565 | the loop computes that parse, and one place more than there are bytes is room for the arcs |
| Varint.AppendUvarint | src/encoding/binary/varint.rs:65-76 | appends the encoding |
| Varint.PutUvarint | src/encoding/binary/varint.rs:81-94 | writes the encoding in place and nothing beyond it |
| Varint.DecodeUvarint | src/encoding/binary/varint.rs:102-132 | the loop computes the recursive decoding |
| Varint.RoundTrip | examples/binary_varint_smoke.rs:187-320 | decoding an encoded 64-bit value followed by any bytes returns it and its length |
| Varint.AtMostTenBytes | src/encoding/binary/varint.rs:40-58 | no 64-bit value takes more than ten bytes |
| Varint.Verdicts | src/encoding/binary/varint.rs:102-132 | overflow if and only if the tenth byte ends the number and exceeds 1, or a byte follows ten that continue; too short if and only if at most ten bytes all continue |
| Varint.ZigZagBijection | src/encoding/binary/varint.rs:138-173 | zig-zag is a bijection between the signed and unsigned 64-bit numbers |
| Varint.SignedRoundTrip | src/encoding/binary/varint.rs:138-173 | signed values round-trip in at most ten bytes |
| Varint.ReadUvarint | src/encoding/binary/varint.rs:186-218 | reading agrees with Uvarint, with the end-of-input errors and the value returned beside each error; ten continuing bytes are an overflow here |
| Bufio.Source.Read | examples/bufio_pathological_smoke.rs:34-130 | a source that answers with any fragmentation, empty answers, and its end alone or with its last bytes |
| Bufio.Reader.constructor | src/bufio/bufio.rs:149-163 | a reader with a buffer of at least 16 bytes |
| Bufio.Reader.Fill | src/bufio/bufio.rs:298-344 | nothing is lost; without an error there is more buffered; no-progress if and only if the source has data left and its next hundred answers are empty |
| Bufio.Reader.ReadSlice | src/bufio/bufio.rs:563-595 | returned plus remaining is what there was; ends in the first delimiter, or explains why not; records its last byte except when the buffer was full |
| Bufio.Reader.ReadBytes | src/bufio/bufio.rs:639-684 | up to and including the first delimiter, or everything with the source's error, for every fragmentation and buffer size; records its last byte unless it consists of full buffers only |
| Bufio.Reader.ReadByte | src/bufio/bufio.rs:484-496 | the next byte, recorded, or the reason there is none |
| Bufio.Reader.UnreadByte | src/bufio/bufio.rs:500-513 | succeeds if and only if a byte is recorded; puts the recorded byte back, which restores the stream if and only if it equals the last byte read |
| Bufio.UnreadAfterFullBuffer | src/bufio/bufio.rs:585-590 | the failing family: after one byte and a line that fills the buffer, the first byte is put back in place of the last |
| Bufio.SplitIff | examples/bufio_ref_smoke.rs:226-290 | splitting at the delimiter is the only decomposition into lines that end in their only delimiter and a rest without one |
| Bufio.ReadLines | examples/bufio_pathological_smoke.rs:178-270 | reading lines until an error gives exactly the pieces of the data, the last with the source's error; a source that stalls stops it with the first lines and nothing lost |

## Left out

- The G/M/P scheduler, preemption, the network poller, the timer heap and the page allocator: the channel model lets any goroutine take the next step.
- The spin locks and the memory order of the atomics: taking several locks for a select is part of its step; that taking them in order cannot deadlock is proved separately, in `SelectOrder`.
- A `select!` with no case at all, and the limit of 32 cases: the model takes any positive number of cases.
- The queue order among several cases of one select on the same channel: the model registers cases by index, the macro by kind of arm; no theorem depends on it.
- Len and Cap of a channel as racy snapshots.
- The concurrent ring counts tickets without bound and interleaves accesses in one order: a thread that sleeps while an index goes all the way round 2^64, and the acquire and release orders of the atomics, are not modelled.
- The channel programs keep a goroutine slot for every group; a group a program does not have gets a quota of zero.
- big.Float, big.Rat, random numbers, square roots, and conversion from and to text: other algorithms with little shared structure.
- Mod, Div, Quo and Rem as separate receiver methods: they are the halves of DivMod and QuoRem.
- The streaming decoders of ascii85 and base64, and base32.
- ASN.1 big integers, times, character sets and the reflective Marshal.
- Object identifiers whose first two arcs do not fit in 64 bits once combined.
- The DER encoders write into a window of the caller's buffer; here, except for EncodeInt64, they are the bytes they write.
- ReadVarint and PutVarint: compositions of members that are modelled.
- bufio Peek, Discard, Read, ReadRune, ReadLine, WriteTo, the Writer and the Scanner.
- Limbs.SubLimbs: requires the minuend to be at least the subtrahend and no shorter, as every caller guarantees.
