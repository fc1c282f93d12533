/** The `batch(size)` operator: raw bites are cut into windows of `size`, each
    window is reduced into one batch bite, and the batch bite's `next` is
    chained to the acknowledgment of the window's last raw bite.

    The model has three layers:
    - the sequential meaning of the RxJS pipeline over a finite source
      (`Windows` for `windowCount`, `NonEmpty` for the empty-batch filter,
      `Chunks` as the independent reference);
    - `WindowTrace`/`BatchTrace`, the specification of the observable events
      (bites received, callbacks invoked, batches emitted, releases completed);
    - `Batcher`, the reduce accumulator and release signal as mutable state,
      driven by `RunBatch`, which is proved to produce exactly `BatchTrace`. */
module Batch {
  import opened Bites

  /** What can be observed while the operator runs. */
  datatype Event<T> =
    | Received(bite: Ack)            // a raw bite reaches the reduce step of its window
    | Called(next: Ack)              // a `next` callback is invoked
    | Emitted(batch: Bite<seq<T>>)   // a batch bite is passed downstream
    | Released(w: nat)               // the release signal of window w completes
    | WindowDone(w: nat)             // the inner stream of window w completes

  // ---------------------------------------------------------------------------
  // Sequential meaning of the pipeline

  /** The windows `windowCount(size)` opens over a finite source: full windows,
      then one trailing window holding the remaining `|vs| % size` values,
      which is empty when `size` divides `|vs|`. */
  function Windows<T>(vs: seq<T>, size: nat): seq<seq<T>>
    requires size >= 1
    decreases |vs|
  {
    if |vs| < size then [vs] else [vs[..size]] + Windows(vs[size..], size)
  }

  /** The empty-batch filter: drops the empty sequences, keeps the others in order. */
  function NonEmpty<T>(ws: seq<seq<T>>): seq<seq<T>>
  {
    if ws == [] then []
    else if ws[0] == [] then NonEmpty(ws[1..])
    else [ws[0]] + NonEmpty(ws[1..])
  }

  /** Reference chunking: consecutive pieces of length `size`, the last one
      possibly shorter, and no empty piece. */
  function Chunks<T>(vs: seq<T>, size: nat): seq<seq<T>>
    requires size >= 1
    decreases |vs|
  {
    if vs == [] then []
    else if |vs| <= size then [vs]
    else [vs[..size]] + Chunks(vs[size..], size)
  }

  // ---------------------------------------------------------------------------
  // Event specification

  /** The batch bite that the reduce of window `w` yields for the values `win`:
      a full window hands over the `next` of its last raw bite (upstream index
      `base + size - 1`); a partial window keeps the seed `next`. */
  function BatchBite<T>(win: seq<T>, size: nat, w: nat, base: nat): Bite<seq<T>>
    requires size >= 1
  {
    Bite(win, if |win| == size then Next(base + size - 1) else Release(w))
  }

  /** What the reduce step does on receiving the bite at window index `j`:
      acknowledge it at once, or, for the last index, complete the release. */
  function ReceiptEffect<T>(size: nat, w: nat, base: nat, j: nat): Event<T>
    requires size >= 1
  {
    if j < size - 1 then Called(Next(base + j)) else Released(w)
  }

  /** Events of the first `n` receipts of window `w` (upstream bites
      `base .. base + n - 1`): each receipt followed by its effect. */
  function Receipts<T>(size: nat, w: nat, base: nat, n: nat): seq<Event<T>>
    requires size >= 1
  {
    if n == 0 then []
    else Receipts(size, w, base, n - 1) + [Received(Next(base + n - 1)), ReceiptEffect(size, w, base, n - 1)]
  }

  /** Events when window `w` completes with the values `win`:
      - an empty window emits nothing, and the filter invokes the seed `next`,
        which completes the release, so the window's inner stream completes;
      - a full window emits its batch and, being already released, completes;
      - a partial window emits its batch and waits for the release. */
  function Closing<T>(win: seq<T>, size: nat, w: nat, base: nat): seq<Event<T>>
    requires size >= 1
  {
    if win == [] then [Called(Release(w)), Released(w), WindowDone(w)]
    else if |win| == size then [Emitted(BatchBite(win, size, w, base)), WindowDone(w)]
    else [Emitted(BatchBite(win, size, w, base))]
  }

  /** Events when the downstream consumer acknowledges the batch of window `w`:
      for a full window this is the deferred acknowledgment of the last raw
      bite; for a partial window the seed `next` completes the release and
      then the window. */
  function Acknowledged<T>(win: seq<T>, size: nat, w: nat, base: nat): seq<Event<T>>
    requires size >= 1
  {
    if win == [] then []
    else if |win| == size then [Called(Next(base + size - 1))]
    else [Called(Release(w)), Released(w), WindowDone(w)]
  }

  /** All events of window `w`, whose first raw bite has upstream index `base`. */
  function WindowTrace<T>(win: seq<T>, size: nat, w: nat, base: nat): seq<Event<T>>
    requires size >= 1
  {
    Receipts(size, w, base, |win|) + Closing(win, size, w, base) + Acknowledged(win, size, w, base)
  }

  /** Events of the windows of `vs`, numbered from `w`, the first starting at
      upstream index `base`; windows are processed strictly one after another. */
  function TraceFrom<T>(vs: seq<T>, size: nat, w: nat, base: nat): seq<Event<T>>
    requires size >= 1
    decreases |vs|
  {
    if |vs| < size then WindowTrace(vs, size, w, base)
    else WindowTrace(vs[..size], size, w, base) + TraceFrom(vs[size..], size, w + 1, base + size)
  }

  /** Events of `batch(size)` over the source values `vs`, with a downstream
      consumer that acknowledges every batch it receives. */
  function BatchTrace<T>(vs: seq<T>, size: nat): seq<Event<T>>
    requires size >= 1
  {
    TraceFrom(vs, size, 0, 0)
  }

  // ---------------------------------------------------------------------------
  // The reduce accumulator and release signal as mutable state

  /** State of the window currently being reduced: the accumulated batch bite
      (`value`, `next`), the reduce index, the release signal, and the log of
      everything observable so far. */
  class Batcher<T> {
    const size: nat
    var window: nat      // number of the current window
    var base: nat        // upstream index of the window's first raw bite
    var value: seq<T>    // the batch bite's value array
    var next: Ack        // the batch bite's `next`
    var index: nat       // reduce index: bites received in this window
    var released: bool   // has the release signal completed
    var closed: bool     // has the window (and so its reduce) completed
    var log: seq<Event<T>>

    ghost predicate Valid()
      reads this
    {
      && size >= 1
      && index == |value| <= size
      && (|value| < size ==> next == Release(window))
      && (!closed ==> (released <==> |value| == size))
      && (closed && |value| == size ==> released)
    }

    /** The state right after window `w` opens with its seed bite. */
    ghost predicate Opened(w: nat, b: nat)
      reads this
    {
      window == w && base == b && value == [] && index == 0 && next == Release(w)
      && !released && !closed
    }

    constructor (size: nat)
      requires size >= 1
      ensures Valid() && this.size == size && Opened(0, 0) && log == []
    {
      this.size := size;
      window, base := 0, 0;
      value, next, index := [], Release(0), 0;
      released, closed := false, false;
      log := [];
    }

    /** The reduce step for one raw bite: push its value, then acknowledge it
        at once if it is not last in the window, or else complete the release
        and defer its `next` to the batch bite. */
    method Receive(b: Bite<T>)
      requires Valid() && !closed && index < size
      modifies this
      ensures Valid() && !closed
      ensures window == old(window) && base == old(base)
      ensures value == old(value) + [b.value] && index == old(index) + 1
      ensures next == (if old(index) < size - 1 then old(next) else b.next)
      ensures released == (old(index) == size - 1)
      ensures log == old(log) + [Received(b.next)]
                     + [if old(index) < size - 1 then Called(b.next) else Released(window)]
    {
      log := log + [Received(b.next)];
      value := value + [b.value];
      if index < size - 1 {
        log := log + [Called(b.next)];
      } else {
        released := true;
        log := log + [Released(window)];
        next := b.next;
      }
      index := index + 1;
    }

    /** Invokes the callback `a`: the seed `next` of the current window
        completes its release (and the window, once closed) and returns true;
        any other callback is an acknowledgment passed upstream. */
    method Invoke(a: Ack) returns (ok: bool)
      requires Valid()
      requires a == Release(window) ==> closed
      modifies this
      ensures Valid() && ok
      ensures window == old(window) && base == old(base) && value == old(value)
      ensures next == old(next) && index == old(index) && closed == old(closed)
      ensures released == (old(released) || a == Release(window))
      ensures log == old(log) + [Called(a)]
                     + (if a == Release(window) && !old(released)
                        then [Released(window), WindowDone(window)] else [])
    {
      log := log + [Called(a)];
      if a == Release(window) && !released {
        released := true;
        log := log + [Released(window), WindowDone(window)];
      }
      ok := true;
    }

    /** The window completes: the reduce yields the batch bite; an empty one
        is dropped by invoking its `next`, a non-empty one is emitted; the
        window's inner stream completes once its release has completed. */
    method Close() returns (out: Option<Bite<seq<T>>>)
      requires Valid() && !closed
      modifies this
      ensures Valid() && closed
      ensures window == old(window) && base == old(base) && value == old(value)
      ensures next == old(next) && index == old(index)
      ensures released == (old(released) || old(value) == [])
      ensures out == if old(value) == [] then None else Some(Bite(old(value), old(next)))
      ensures log == old(log) +
                     if old(value) == [] then [Called(Release(window)), Released(window), WindowDone(window)]
                     else [Emitted(Bite(value, next))] + (if released then [WindowDone(window)] else [])
    {
      closed := true;
      if value == [] {
        out := None;
        var _ := Invoke(next);
      } else {
        out := Some(Bite(value, next));
        log := log + [Emitted(Bite(value, next))];
        if released {
          log := log + [WindowDone(window)];
        }
      }
    }

    /** Feeds the values `win` to the current window as the upstream bites
        `base ..`, then completes the window. */
    method ConsumeWindow(win: seq<T>) returns (out: Option<Bite<seq<T>>>)
      requires Valid() && Opened(window, base) && |win| <= size
      modifies this
      ensures Valid() && closed && window == old(window) && base == old(base) && value == win
      ensures released == (|win| == 0 || |win| == size)
      ensures next == if |win| == size then Next(base + size - 1) else Release(window)
      ensures out == if win == [] then None else Some(BatchBite(win, size, window, base))
      ensures log == old(log) + Receipts(size, window, base, |win|) + Closing(win, size, window, base)
    {
      ghost var log0 := log;
      var j := 0;
      while j < |win|
        invariant 0 <= j <= |win|
        invariant Valid() && !closed && window == old(window) && base == old(base)
        invariant value == win[..j] && index == j
        invariant j < size ==> next == Release(window)
        invariant j == size ==> next == Next(base + size - 1)
        invariant released == (j == size)
        invariant log == log0 + Receipts(size, window, base, j)
      {
        Receive(Bite(win[j], Next(base + j)));
        assert win[..j + 1] == win[..j] + [win[j]];
        j := j + 1;
      }
      assert win[..j] == win;
      out := Close();
    }

    /** One whole window: its values `win` are consumed, and the batch bite
        it emits, if any, is acknowledged by the downstream consumer. */
    method Serve(win: seq<T>) returns (out: Option<Bite<seq<T>>>)
      requires Valid() && Opened(window, base) && |win| <= size
      modifies this
      ensures Valid() && closed && released && window == old(window) && base == old(base) && value == win
      ensures next == if |win| == size then Next(base + size - 1) else Release(window)
      ensures out == if win == [] then None else Some(BatchBite(win, size, window, base))
      ensures log == old(log) + WindowTrace(win, size, window, base)
    {
      out := ConsumeWindow(win);
      if out.Some? {
        var _ := Invoke(out.value.next);
      }
    }

    /** A full window `win` is served, then the next window opens; returns
        the batch emitted. */
    method Step(win: seq<T>) returns (batch: seq<T>)
      requires Valid() && Opened(window, base) && |win| == size
      modifies this
      ensures Valid() && Opened(old(window) + 1, old(base) + size)
      ensures batch == win
      ensures log == old(log) + WindowTrace(win, size, old(window), old(base))
    {
      var out := Serve(win);
      batch := out.value.value;
      Advance();
    }

    /** Opens the next window with a fresh seed bite, once the current one has
        completed. */
    method Advance()
      requires Valid() && closed && released
      modifies this
      ensures Valid() && Opened(old(window) + 1, old(base) + old(|value|)) && log == old(log)
    {
      window := window + 1;
      base := base + |value|;
      value, next, index := [], Release(window), 0;
      released, closed := false, false;
    }
  }

  datatype Option<X> = None | Some(value: X)

  lemma Associative<X>(a: seq<X>, b: seq<X>, c: seq<X>)
    ensures a + b + c == a + (b + c)
  {
  }

  lemma TraceFromFull<T>(vs: seq<T>, size: nat, w: nat, base: nat)
    requires size >= 1 && |vs| >= size
    ensures TraceFrom(vs, size, w, base)
         == WindowTrace(vs[..size], size, w, base) + TraceFrom(vs[size..], size, w + 1, base + size)
  {
  }

  lemma ChunksFull<T>(vs: seq<T>, size: nat)
    requires size >= 1 && |vs| >= size
    ensures Chunks(vs, size) == [vs[..size]] + Chunks(vs[size..], size)
  {
    if |vs| == size {
      assert vs[..size] == vs && vs[size..] == [];
    }
  }

  lemma LastWindow<T>(vs: seq<T>, size: nat, w: nat, base: nat)
    requires size >= 1 && |vs| < size
    ensures TraceFrom(vs, size, w, base) == WindowTrace(vs, size, w, base)
    ensures Chunks(vs, size) == if vs == [] then [] else [vs]
  {
  }

  /** Runs `batch(size)` over the source values `vs`, delivered as upstream
      bites `0 .. |vs| - 1`, with a downstream consumer that acknowledges each
      batch as soon as it receives it.  Returns the observed events and the
      values of the batches emitted, in order. */
  method RunBatch<T>(vs: seq<T>, size: nat) returns (log: seq<Event<T>>, batches: seq<seq<T>>)
    requires size >= 1
    ensures log == BatchTrace(vs, size)
    ensures batches == Chunks(vs, size)
  {
    var b := new Batcher<T>(size);
    var rest := vs;
    batches := [];
    while |rest| >= size
      invariant b.Valid() && b.size == size && b.Opened(b.window, b.base)
      invariant b.log + TraceFrom(rest, size, b.window, b.base) == BatchTrace(vs, size)
      invariant batches + Chunks(rest, size) == Chunks(vs, size)
      decreases |rest|
    {
      ghost var log0, w, base, done := b.log, b.window, b.base, batches;
      var win := rest[..size];
      TraceFromFull(rest, size, w, base);
      ChunksFull(rest, size);
      var batch := b.Step(win);
      batches := batches + [batch];
      rest := rest[size..];
      Associative(log0, WindowTrace(win, size, w, base), TraceFrom(rest, size, w + 1, base + size));
      Associative(done, [win], Chunks(rest, size));
    }
    LastWindow(rest, size, b.window, b.base);
    var last := b.Serve(rest);
    batches := batches + if last.Some? then [last.value.value] else [];
    log := b.log;
  }
}
