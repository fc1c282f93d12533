# rx-flowable: a verified model of the pull-mode operators

rx-flowable adds a pull protocol on top of RxJS. Every item travels as a
*bite*: a value plus a one-shot `next` callback. The source delivers the
following item only once the current bite's `next` has been invoked. This
project models three pieces of the library as sequential programs over
finite observations and proves what they promise.

- `batch(size)` (module `Batch`, properties in `BatchProperties`):
  - `windowCount` cuts the raw bites into windows of `size`.
  - A reduce step pushes each value into the window's batch bite. It
    acknowledges every bite that is not last in its window at once. For the
    last bite it completes the window's release signal and hands that bite's
    `next` to the batch bite.
  - A window that ends early keeps the seed `next`. Invoking the seed `next`
    completes the release and returns true.
  - An empty batch is dropped, and dropping it invokes its `next`.
  - The reduce accumulator and release signal are the class
    `Batch.Batcher`. `Batch.RunBatch` drives it over a whole source and is
    proved to produce exactly the event trace `Batch.BatchTrace` and the
    reference chunks `Batch.Chunks`.
- `flatMap(project)` (module `FlatMap`):
  - It concat-maps each outer bite's value to an inner consumable and
    forwards the inner bites unchanged.
  - It invokes the outer bite's `next` when, and only when, the inner stream
    completes.
  - `FlatMap.Trace` is the event trace. The lemmas relate it to reference
    definitions: `Completed`, `Started`, `InnerItems`, `Outcome` and
    `Segments`.
- `flow`, `flowable` and `isFlowable` (module `Flow`):
  - `Flow.Flow` is the observer loop. It delivers each bite's value to the
    push subscriber, then invokes the bite's `next`, and forwards completion
    and error.
  - Observables are a tagged variant: a plain push observable, or a flowable
    carrying its `consume` member.

Module `Bites` holds the shared vocabulary: `Ack`, `Bite`, `End` and
`Stream`. Callbacks are modelled by identity. `Next(i)` acknowledges the
i-th upstream bite. `Release(w)` is the seed `next` of batch window `w`.
A stream observation is a finite item sequence plus how it ends:
`Complete`, `Error(reason)`, or `Never` for a stream that stalls.

The batch trace fixes one schedule. Each window is processed to its end,
and the downstream consumer acknowledges every batch as soon as the operator
is idle. The upstream signals completion only after the last raw bite's
`next` has been invoked. A window's bites arrive only after the previous
window has completed. This follows from the pull protocol together with the
deferred acknowledgment of each full window's last bite: the upstream
delivers the next raw bite only once that `next` has been invoked, which
happens after the window has completed. `concatMap` itself only delays the
subscription to the next window.

## Model

| member | source | states |
|---|---|---|
| Batch.Batcher.constructor | src/operators/batch.ts:23-29 | a window opens with the seed bite: empty value array, the seed `next` `Release(0)`, the release not completed |
| Batch.Batcher.Receive | src/operators/batch.ts:14-22 | the value is appended to the batch; below index `size - 1` the bite's `next` is invoked on receipt; at index `size - 1` the release completes and the bite's `next` becomes the batch bite's `next` |
| Batch.Batcher.Invoke | src/operators/batch.ts:24-28 | invoking the seed `next` of the current window completes its release (and, the reduce being over, the window) and returns true; any other callback only acknowledges upstream |
| Batch.Batcher.Close | src/operators/batch.ts:29-31 | at the window's end the reduce yields its batch bite; an empty one is dropped by invoking its `next`, which completes release and window; a non-empty one is emitted, and the window completes at once only if already released |
| Batch.Batcher.ConsumeWindow | src/operators/batch.ts:13-31 | feeding a window's values through the reduce logs exactly `Receipts` then `Closing`; the release has completed iff the window is full or empty, the batch bite's `next` is the last raw bite's for a full window and the seed `next` otherwise; and the batch is `BatchBite(win, ...)` |
| Batch.Batcher.Serve | src/operators/batch.ts:10-31 | one whole window, including the downstream acknowledgment of its batch, logs exactly `WindowTrace`, and leaves the window released and closed, holding the window's values and the batch bite's `next` |
| Batch.Batcher.Step | src/operators/batch.ts:9-10 | a full window is served and the next window opens at the following upstream index, with the window's values as the batch |
| Batch.Batcher.Advance | src/operators/batch.ts:9-12 | after a completed window the next window opens with a fresh seed bite and a fresh release signal, logging nothing |
| Batch.RunBatch | src/operators/batch.ts:7-33 | the operator over the source values logs exactly `BatchTrace(vs, size)` and emits exactly the reference chunks `Chunks(vs, size)` |
| BatchProperties.ChunksConcatenate | src/operators/batch.ts:9 | concatenating the batches in order gives back the source values |
| BatchProperties.ChunksSized | src/operators/batch.ts:9 | every batch holds 1 to `size` values, and every batch except the last holds exactly `size` |
| BatchProperties.ChunksCount | src/operators/batch.ts:9 | there are `n / size` batches rounded up, for `n` source values |
| BatchProperties.WindowsCount | src/operators/batch.ts:9 | for `n` source values `windowCount` opens `n / size + 1` windows; the last one holds the `n % size` trailing values, so it is empty when `size` divides `n` |
| BatchProperties.WindowsFiltered | src/operators/batch.ts:31 | dropping the empty windows leaves exactly the reference batches |
| BatchProperties.WindowAckMarks | src/operators/batch.ts:16-20 | one window acknowledges its raw bites `base ..` exactly once each, in upstream order |
| BatchProperties.WindowOrdered | src/operators/batch.ts:16-20 | within one window, each receipt is followed at once by its acknowledgment or by the release; a release follows one of its two causes; the window completes after its release; the deferred `next` comes after the batch carrying it |
| BatchProperties.WindowCompletes | src/operators/batch.ts:30 | one window's trace contains its completion and, for a full window, the acknowledgment of its last raw bite |
| Batch.Windows | src/operators/batch.ts:9 | the windows `windowCount` opens over a finite source; it has no contract of its own: `BatchProperties.WindowsCount` and `BatchProperties.WindowsFiltered` carry its promises |
| Batch.NonEmpty | src/operators/batch.ts:31 | the empty-batch filter; it has no contract of its own: `BatchProperties.WindowsFiltered` carries its promise |
| BatchProperties.BatchEmitsChunks | src/operators/batch.ts:9-31 | the values of the batches emitted downstream, in order, are the reference chunks, and their concatenation is the source |
| BatchProperties.BatchAcksEachOnce | src/operators/batch.ts:16-20 | every raw bite `0 .. n - 1` of an `n`-value source is acknowledged exactly once, in upstream order, either on receipt or through its batch |
| BatchProperties.BatchWindowsComplete | src/operators/batch.ts:24-31 | every window opened, the empty trailing one included, has its release completed exactly once and completes exactly once, in window order: nothing stalls |
| BatchProperties.BatchAckDiscipline | src/operators/batch.ts:16-20 | a bite that is not last in its window is acknowledged right on receipt; the last bite's `next` is invoked only after the batch bite carrying it is emitted; no raw bite arrives before the one before it is acknowledged |
| BatchProperties.BatchReleaseDiscipline | src/operators/batch.ts:19-30 | a release completes right after the last bite's receipt or the seed `next`'s invocation, and no window completes before its release |
| BatchProperties.BatchWindowsInOrder | src/operators/batch.ts:10 | in the schedule the batch trace fixes, events appear window by window, and nothing of window `w + 1` happens before window `w` has completed |
| BatchProperties.BatchBitesWellFormed | src/operators/batch.ts:18-29 | every batch bite holds 1 to `size` values; the `k`-th batch bite emitted holds the `k`-th reference chunk, and its `next` is that of raw bite `k * size + size - 1` (the last of window `k`) if it is full, so acknowledging the batch acknowledges exactly that raw bite, or the seed `next` of window `k` otherwise |
| BatchProperties.BatchExample | src/operators/batch.ts:9-28 | `[1, 2, 3, 4, 5]` with `size = 2` emits `[1, 2]` carrying raw bite 1's `next`, `[3, 4]` carrying raw bite 3's `next`, and `[5]` carrying the seed `next` of window 2 |
| FlatMap.Trace | src/operators/flatMap.ts:9-10 | the events of `flatMap(project)` over an outer observation; it has no contract of its own: `TraceSegments`, `TraceMapped`, `TraceForwarded`, `TraceAcks`, `TraceEnding` and `TraceEndsLast` carry its promises |
| FlatMap.Completed | src/operators/flatMap.ts:10 | the count of leading outer bites whose inner stream completes: all of them complete, and the next one, if any, does not |
| FlatMap.TraceSegments | src/operators/flatMap.ts:9-10 | the output is, outer bite after outer bite, the projection, all its inner bites, then its `next`; inner streams never interleave; after the first inner stream that does not complete comes only its termination |
| FlatMap.TraceMapped | src/operators/flatMap.ts:9 | `project` is applied to each started outer bite's value exactly once, in arrival order |
| FlatMap.TraceForwarded | src/operators/flatMap.ts:9-10 | the bites passed downstream are exactly the inner bites, unchanged, inner stream after inner stream |
| FlatMap.TraceAcks | src/operators/flatMap.ts:10 | an outer bite's `next` is invoked exactly when its inner stream completes, in arrival order, never for the first inner stream that errors or stalls, nor for any bite after it |
| FlatMap.TraceEnding | src/operators/flatMap.ts:9-10 | the output terminates at most once, exactly as `Outcome` says |
| FlatMap.TraceEndsLast | src/operators/flatMap.ts:9 | nothing is passed downstream after the output terminates |
| FlatMap.Example | src/operators/flatMap.ts:7-10 | `x => [x, 10 * x]` over the outer values `1, 2` forwards `1, 10, 2, 20`, acknowledges both outer bites, then completes |
| Flow.Flow | src/functions/flow.ts:28-37 | the observer loop appends exactly `FlowTrace(source)` |
| Flow.FlowPaired | src/functions/flow.ts:30-33 | bite `k`'s value is delivered at position `2k` and its `next` is invoked right after, at `2k + 1`: nothing is buffered |
| Flow.FlowViews | src/functions/flow.ts:29-35 | the values delivered are the source values in order, none skipped or repeated; each bite's `next` is invoked exactly once, in order; the termination is forwarded unchanged |
| Flow.MakeFlowable | src/functions/flow.ts:13-15 | `flowable(source)` is flowable and its `consume` is `source` itself |
| Flow.IsFlowable | src/functions/flow.ts:7-9 | the capability test, a tag test on the variant; it has no contract of its own: `Flow.MakeFlowable` and `Flow.PushOnlyNotFlowable` carry both directions |
| Flow.PushOnlyNotFlowable | src/functions/flow.ts:7-9 | an observable without a `consume` member is not flowable |
| Flow.Subscribe | src/functions/flow.ts:20 | the push view of an observable, `flow` over the consumable for a flowable; it has no contract of its own: `Flow.SubscribeFlowable` carries its promise |
| Flow.SubscribeFlowable | src/functions/flow.ts:15-20 | subscribing to `flowable(source)` runs `flow` on `source`: the subscriber sees what a plain observable of the source values would deliver, while each bite is acknowledged in order |

## Left out

- RxJS scheduling and the library itself (`windowCount`, `concatMap`, `reduce`, `AsyncSubject`, `concatWith`, `ignoreElements`, `tap`): these are library code. Only their sequential meaning over finite observations is modelled.
- `ignoreIf`: src/operators/ignoreIf is not part of this model. It is taken to invoke the `next` of each bite it drops and to pass every other bite on unchanged.
- `batch` with a `size` that is not a positive integer: `size: number` also admits zero, negative and fractional values, which the code does not check. The model takes `size` to be a natural number and every member requires `size >= 1` rather than inventing behaviour.
- Batch.BatchTrace: fixes one schedule, in which the downstream acknowledges each batch as soon as the operator is idle. The upstream's completion is taken to follow the invocation of the last raw bite's `next`. An upstream may instead complete right after delivering its last bite. The event order then changes when the source length is a positive multiple of `size`. The empty trailing window opens, the upstream completes, and `ignoreIf` drops the empty batch by invoking its seed `next`. So `Called(Release(w + 1))`, `Released(w + 1)`, `WindowDone(w + 1)` and the output's completion all come before the downstream's acknowledgment of the last full batch. `BatchProperties.BatchWindowsInOrder` does not describe that schedule. When the upstream's completion does follow the last `next`, a downstream that holds a batch longer only delays the later events and does not reorder them. A downstream that never acknowledges stalls the source, which is not modelled. A downstream that acknowledges synchronously inside the emission, as `flow` does, is not modelled either: for a full window it invokes the last raw bite's `next` before the window completes, so that `Called` event comes before `WindowDone(w)` rather than after it, and the next raw bite may arrive before `WindowDone(w)` too.
- Batch.RunBatch: covers only a source that completes after finitely many bites. Upstream errors and a source that never ends are not modelled for `batch`.
- FlatMap.Trace: takes the outer source to wait for each outer `next`, so outer bites never queue inside `concatMap`. An outer termination that arrives while an inner stream is active is modelled as arriving after it. For an outer completion this matches `concatMap`. An outer error, however, errors the output at once: the rest of that inner stream is not forwarded and its outer `next` is never invoked, whereas the model forwards the whole inner stream, invokes that `next`, and only then ends with the error.
- Flow.Flow: the subscription it returns and unsubscription are not modelled. Neither is a `next` that synchronously delivers the following bite inside the callback, because that does not change the order of the signals.
- `flowable`: the anonymous `Observable` subclass is the tagged variant `Flow.Observable`, and `isFlowable`'s duck typing is its tag test.
- Error payloads are modelled as strings.
- src/functions/each.ts is not part of this model. It is promise plumbing whose point is asynchronous sequencing.
- src/functions/drain.ts is not part of this model. It is a one-line collection wrapper whose in-order result follows from `Flow.FlowViews`.
- src/index.ts is not part of this model. It holds only interfaces and doc comments, mirrored here by `Bites.Bite`.
