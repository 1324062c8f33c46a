# RingIntBuffer pipeline, modelled in Dafny

The modelled program is a small Go console pipeline (`main.go`). Integers typed
at the console pass a positive-value filter, then a multiple-of-three filter,
then a batching stage built on a fixed-capacity integer ring buffer
(`RingIntBuffer`). The batching stage pushes every value it receives into the
buffer. When its flush interval elapses it gets the buffer's contents and
forwards them in order. On shutdown it stops at once.

The model has four modules:

- `Ring` (`ring.dfy`): the class `RingIntBuffer`. It has the backing array
  (`arr`, called `array` in Go), the cursor `pos` (-1 when empty) and the
  capacity `size`. `Push` shifts the whole array one slot toward the front
  when the buffer is full, as the source does. `Get` returns the live prefix
  and resets `pos`. Both are proved against pure specification functions.
  `Window` is "the last n values". `Pushed` and `PushAll` are pushes on the
  abstract contents. `Drain` is a get on the abstract contents. The lemmas
  show what the buffer holds after any sequence of pushes from empty.
- `Filters` (`filters.dfy`): the two predicates, with Go's truncated `%`
  written out as `GoRem`. There is an order-preserving `Filter`, the loop of
  a filter stage (`FilterStage`) and its two instances.
- `Stage` (`stage.dfy`): `bufferStageFunc` as a sequential state machine over
  events `Value(v) | Tick | Done`. `Run` is its specification. The method
  `BufferStage` runs the real loop over a `RingIntBuffer` and is proved equal
  to `Run`. The lemmas cover shutdown, ordering, capacity 1, the two filters
  composed in front of the stage, and the end-to-end scenarios.
- `Subsequence` (`subsequence.dfy`): the order-preserving subsequence relation
  used to say that stages only drop values and never reorder them.

Behaviour kept exactly as the code has it:

- `Get` tests `pos <= 0`, not `pos < 0` (main.go:49). A buffer holding exactly
  one value therefore returns nothing and keeps that value. With capacity 1
  the stage never forwards anything (`Stage.CapacityOneForwardsNothing`).
  `Get`'s own doc comment (main.go:47) promises all elements of the buffer
  followed by clearing it, which a one-element buffer does not get. The model
  follows the code.
- On shutdown the stage discards what is still buffered (`Stage.DoneDiscards`).

## Model

| member | source | states |
|---|---|---|
| `Ring.RingIntBuffer.constructor` | main.go:26-28 | a new buffer has a fresh array of `size` slots, `pos == -1`, and no live values |
| `Ring.RingIntBuffer.Push` | main.go:32-45 | keeps the invariant `-1 <= pos <= size-1`, `array.Length == size`; on a full buffer `pos` stays and the array becomes the old array shifted one slot toward the front plus `el` in the last slot; otherwise `pos` advances by one and only `array[pos]` changes, to `el`; the live values become the last `size` values of the old live values followed by `el` |
| `Ring.RingIntBuffer.Get` | main.go:48-58 | keeps the invariant; with `pos <= 0` it returns nothing and changes nothing; with `pos >= 1` it returns exactly the old live values oldest first and sets `pos` to -1; the result agrees with `Drain` on the abstract contents |
| `Ring.PushedBranches` | main.go:35-44 | `Pushed`, a push on the abstract contents: below capacity it appends the value (main.go:41-44); at capacity it drops the oldest value, keeps the others in order and puts the value last (main.go:35-40); at most `n` values remain |
| `Ring.PushedKeepsSuffix` | main.go:35-40 | what a push keeps is a suffix of the old contents followed by the pushed value, so only the oldest values are dropped |
| `Ring.Drain` | main.go:49-57 | the reference definition of `Get` on the abstract contents: values are handed out only when at least two are live (the `pos <= 0` test), and then all of them, after which the buffer is empty; its contract states that a get loses no value: what stays plus what is handed out is exactly the old contents |
| `Ring.WindowShape` | main.go:35-44 | the buffer window of a history holds min(length, capacity) values, and they are its newest values in order |
| `Ring.WindowPush` | main.go:35-44 | pushing into the window of a history gives the window of the history extended by the pushed value |
| `Ring.PushAllWindow` | main.go:30-45 | pushing a sequence into contents that are a window of `p` gives the window of `p` followed by that sequence |
| `Ring.PushesFromEmpty` | main.go:30-45 | after pushes `xs` into an empty buffer of capacity `n` the live values are the last min(\|xs\|, n) values pushed, in push order |
| `Ring.DrainAfterPushes` | main.go:48-57 | after pushes from empty, a get returns exactly the pushed values when 2 <= count <= capacity, exactly the last `capacity` values when the count is larger, and nothing (contents unchanged) when at most one value is live |
| `Ring.DrainTwice` | main.go:49-57 | a get straight after a get that returned values returns nothing; a get that returns nothing leaves the contents unchanged |
| `Filters.GoRem` | main.go:128 | Go's remainder satisfies `a == q*b + r` with the quotient `q` truncated toward zero, is smaller in magnitude than the divisor and has the sign of the dividend |
| `Filters.Positive` | main.go:114 | the test of negativeFilterStageInt: the value is greater than zero |
| `Filters.DividesByThree` | main.go:128 | `data%3 == 0` with Go's truncated `%` holds exactly when the value is a multiple of three, negative values included, and is symmetric under negation |
| `Filters.Filter` | main.go:113-116 | the kept values are no more than the input, and a value is in the output exactly when it is in the input and satisfies the predicate |
| `Filters.FilterAppend` | main.go:111-120 | a filter decides each value independently of those before it: filtering a concatenation concatenates the filtered parts |
| `Filters.FilterIsSubsequence` | main.go:111-120 | a filter's output is an order-preserving subsequence of its input |
| `Filters.FilterCompose` | main.go:65-71 | the positive filter followed by the multiple-of-three filter keeps exactly the values passing both predicates, in order |
| `Filters.FilterStage` | main.go:110-121 | the stage loop forwards exactly the filter of the values it receives, in arrival order |
| `Filters.NegativeFilterStage` | main.go:110-121 | the forwarded values are exactly the filter of the received values by `v > 0`, repeats included; a value is forwarded iff it was received and is > 0; the forwarded values are an order-preserving subsequence of those received |
| `Filters.NotDivideThreeStage` | main.go:124-135 | the forwarded values are exactly the filter of the received values by `v%3 == 0`, repeats included; a value is forwarded iff it was received and is a multiple of three; the forwarded values are an order-preserving subsequence of those received |
| `Stage.Run` | main.go:140-154 | the state machine of the batching stage: a value is pushed (`Pushed`), a tick forwards a non-empty get result (`Drain`) in order, shutdown forwards nothing more; it never forwards more values than were buffered or received |
| `Stage.BufferStage` | main.go:138-155 | the event loop over a fresh buffer forwards exactly what the state machine `Run` forwards: values are pushed, a tick forwards a non-empty get result element by element in order, shutdown returns at once |
| `Stage.DoneDiscards` | main.go:151-152 | the output with a shutdown after events `pre` is the output of `pre` alone: the values still buffered at shutdown are never forwarded, and nothing after it is |
| `Stage.OutputIsSubsequence` | main.go:140-154 | what the stage forwards is an order-preserving subsequence of the buffered values followed by the values it receives: nothing invented, duplicated or reordered |
| `Stage.RunValues` | main.go:142-143 | a run of values forwards nothing and moves the buffer contents as the pushes do |
| `Stage.TickAfterValues` | main.go:144-150 | a tick after values `xs` reach a fresh stage forwards the last min(\|xs\|, capacity) of them in order when at least two are buffered, and nothing otherwise |
| `Stage.CapacityOneForwardsNothing` | main.go:49-51 | with capacity 1 the stage forwards nothing for any sequence of events |
| `Stage.ThroughFilters` | main.go:65-71 | the events as the batching stage sees them after both filter stages: no more events than the input, and every value among them is positive and a multiple of three |
| `Stage.ThroughFiltersValues` | main.go:65-77 | the values reaching the batching stage are the input values filtered by the positive filter and then by the multiple-of-three filter |
| `Stage.LoggedValues` | main.go:65-82 | every value that the batching stage passes on to be logged was typed in, is positive and is a multiple of three, and logged values keep their input order |
| `Stage.ScenarioFilterThenFlush` | main.go:110-150 | input 5, -3, 9, 2, 12 with capacity 10 and a tick after it forwards 9 then 12 |
| `Stage.ScenarioEviction` | main.go:35-40 | capacity 2 and pushes 3, 6, 9, 12 leave [9, 12]; the next tick forwards 9 then 12 |
| `Stage.ScenarioShutdownLosesBuffer` | main.go:151-152 | shutdown with 3, 6, 9 buffered forwards nothing |
| `Stage.ScenarioSingleValueKept` | main.go:49-51 | a tick with one value buffered forwards nothing and keeps the value; the next tick after another value forwards both |

## Left out

- Goroutines, channels, `select` and the `done` broadcast channel (main.go:60-87): the stages are modelled one at a time over the sequence of values each one receives. The interleaving of values and flush ticks seen by the batching stage is an arbitrary event sequence.
- The `sync.Mutex` in `RingIntBuffer` and the unlocked read of `pos` in `Get` (main.go:33-34, 49-53): each `Push` and `Get` is treated as atomic.
- `time.After` and the flush interval (main.go:144): a flush is the abstract `Tick` event.
- `read` (main.go:90-107): console scanning, the case-insensitive "Exit" check and integer parsing are I/O and library calls. The values the first stage receives, and the shutdown event, are parameters.
- The terminal loop in `main` that logs each value (main.go:79-86): logging is I/O. `Stage.LoggedValues` states what reaches it.
- Aliasing of the slice `Get` returns with the backing array (main.go:54): the result is a `seq<int>` snapshot. In `bufferStageFunc` the snapshot is fully sent before the next push, so the forwarded values are the same.
- Go's 64-bit `int`: values are unbounded integers. No arithmetic other than `%` is done on them, and `pos` stays within `[-1, size-1]`.
- The filter and batching stages after the last event: a Go stage blocks forever when no event arrives. The model ends when the event sequence ends.
- Ring.RingIntBuffer.constructor: requires `size >= 0`; with a negative size Go's `make` panics (main.go:27), and the model does not represent that panic.
- Ring.RingIntBuffer.Push: requires `size > 0`; with `size == 0` Go indexes `array[-1]` and panics (main.go:35-40), and the model does not represent that panic.
- Stage.BufferStage: requires `size > 0`, so it does not cover a stage of capacity 0 whose events hold no value; Go runs that case without a panic, every tick getting nil (main.go:49-50). With capacity 0 the first value would panic in `Push`.
