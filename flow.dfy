/** The bridge from the pull world to the push world: `flow` subscribes to a
    consumable and, for each bite, passes the value to a plain subscriber and
    at once invokes the bite's `next`, with no buffering; termination is
    passed on as it is.  `flowable` wraps a consumable as an observable whose
    push view is `flow`, and `isFlowable` tells such observables apart. */
module Flow {
  import opened Bites

  /** What can be observed while `flow` runs. */
  datatype Signal<T> =
    | Delivered(value: T)   // the value is passed to the push subscriber
    | Acked(next: Ack)      // the bite's `next` is invoked
    | Terminated(end: End)  // completion or error is passed to the subscriber

  /** The terminal signal passed on for `end`: none if it never comes. */
  function Terminals<T>(end: End): (ss: seq<Signal<T>>)
    ensures |ss| <= 1
    ensures ss == [] <==> end == Never
    ensures ss != [] ==> ss[0] == Terminated(end)
  {
    if end == Never then [] else [Terminated(end)]
  }

  /** Signals of `flow` for the bites `bites`, as the bites arrive one by one. */
  function FlowItems<T>(bites: seq<Bite<T>>): seq<Signal<T>>
  {
    if bites == [] then []
    else FlowItems(bites[..|bites| - 1]) + [Delivered(bites[|bites| - 1].value), Acked(bites[|bites| - 1].next)]
  }

  /** Signals of `flow` over a whole observed consumable. */
  function FlowTrace<T>(source: Stream<Bite<T>>): seq<Signal<T>>
  {
    FlowItems(source.items) + Terminals(source.end)
  }

  /** `flow(consumable, subs)`: each bite's value is delivered, then the bite
      is acknowledged; completion and error are forwarded. */
  method Flow<T>(source: Stream<Bite<T>>) returns (trace: seq<Signal<T>>)
    ensures trace == FlowTrace(source)
  {
    trace := [];
    var k := 0;
    while k < |source.items|
      invariant k <= |source.items|
      invariant trace == FlowItems(source.items[..k])
    {
      var bite := source.items[k];
      trace := trace + [Delivered(bite.value)];
      trace := trace + [Acked(bite.next)];
      k := k + 1;
      assert source.items[..k][..k - 1] == source.items[..k - 1];
    }
    assert source.items[..k] == source.items;
    match source.end
    case Complete => trace := trace + [Terminated(Complete)];
    case Error(reason) => trace := trace + [Terminated(Error(reason))];
    case Never =>
  }

  // ---------------------------------------------------------------------------
  // Views of a trace

  function DeliveredValues<T>(t: seq<Signal<T>>): seq<T>
  {
    if t == [] then [] else (if t[0].Delivered? then [t[0].value] else []) + DeliveredValues(t[1..])
  }

  function AckedNexts<T>(t: seq<Signal<T>>): seq<Ack>
  {
    if t == [] then [] else (if t[0].Acked? then [t[0].next] else []) + AckedNexts(t[1..])
  }

  function Terminations<T>(t: seq<Signal<T>>): seq<End>
  {
    if t == [] then [] else (if t[0].Terminated? then [t[0].end] else []) + Terminations(t[1..])
  }

  lemma {:induction false} DeliveredAppend<T>(a: seq<Signal<T>>, b: seq<Signal<T>>)
    ensures DeliveredValues(a + b) == DeliveredValues(a) + DeliveredValues(b)
  {
    if a == [] {
      assert a + b == b;
    } else {
      assert (a + b)[0] == a[0] && (a + b)[1..] == a[1..] + b;
      DeliveredAppend(a[1..], b);
    }
  }

  lemma {:induction false} AckedAppend<T>(a: seq<Signal<T>>, b: seq<Signal<T>>)
    ensures AckedNexts(a + b) == AckedNexts(a) + AckedNexts(b)
  {
    if a == [] {
      assert a + b == b;
    } else {
      assert (a + b)[0] == a[0] && (a + b)[1..] == a[1..] + b;
      AckedAppend(a[1..], b);
    }
  }

  lemma {:induction false} TerminationsAppend<T>(a: seq<Signal<T>>, b: seq<Signal<T>>)
    ensures Terminations(a + b) == Terminations(a) + Terminations(b)
  {
    if a == [] {
      assert a + b == b;
    } else {
      assert (a + b)[0] == a[0] && (a + b)[1..] == a[1..] + b;
      TerminationsAppend(a[1..], b);
    }
  }

  lemma ViewsAppend<T>(a: seq<Signal<T>>, b: seq<Signal<T>>)
    ensures DeliveredValues(a + b) == DeliveredValues(a) + DeliveredValues(b)
    ensures AckedNexts(a + b) == AckedNexts(a) + AckedNexts(b)
    ensures Terminations(a + b) == Terminations(a) + Terminations(b)
  {
    DeliveredAppend(a, b);
    AckedAppend(a, b);
    TerminationsAppend(a, b);
  }

  lemma PairViews<T>(b: Bite<T>)
    ensures var p := [Delivered(b.value), Acked(b.next)];
      DeliveredValues(p) == [b.value] && AckedNexts(p) == [b.next] && Terminations(p) == []
  {
    var p := [Delivered(b.value), Acked(b.next)];
    var q: seq<Signal<T>> := [Acked(b.next)];
    var none: seq<Signal<T>> := [];
    assert p[1..] == q && q[1..] == none;
    assert DeliveredValues(q) == DeliveredValues(none) == [];
    assert AckedNexts(q) == [b.next] + AckedNexts(none);
    assert Terminations(q) == Terminations(none) == [];
    assert DeliveredValues(p) == [b.value] + DeliveredValues(q);
    assert AckedNexts(p) == AckedNexts(q);
    assert Terminations(p) == Terminations(q);
  }

  lemma TerminalsViews<T>(end: End)
    ensures DeliveredValues(Terminals<T>(end)) == [] && AckedNexts(Terminals<T>(end)) == []
    ensures Terminations(Terminals<T>(end)) == Terminal(end)
  {
    if end != Never {
      assert Terminals<T>(end)[1..] == [];
    }
  }

  // ---------------------------------------------------------------------------
  // What flow promises

  /** Bite `k`'s value is delivered at position `2k`, and its `next` is
      invoked right after, at `2k + 1`: no bite waits for another. */
  lemma {:induction false} FlowPaired<T>(bites: seq<Bite<T>>)
    ensures |FlowItems(bites)| == 2 * |bites|
    ensures forall k | 0 <= k < |bites| ::
              FlowItems(bites)[2 * k] == Delivered(bites[k].value)
              && FlowItems(bites)[2 * k + 1] == Acked(bites[k].next)
  {
    if bites != [] {
      var init := bites[..|bites| - 1];
      FlowPaired(init);
      forall k | 0 <= k < |bites|
        ensures FlowItems(bites)[2 * k] == Delivered(bites[k].value)
        ensures FlowItems(bites)[2 * k + 1] == Acked(bites[k].next)
      {
        if k < |init| {
          assert bites[k] == init[k];
        }
      }
    }
  }

  /** The values delivered downstream are the source values in order, none
      skipped or repeated; every bite's `next` is invoked exactly once, in
      arrival order; and the source's termination is forwarded unchanged. */
  lemma {:induction false} FlowViews<T>(source: Stream<Bite<T>>)
    ensures DeliveredValues(FlowTrace(source)) == Values(source.items)
    ensures AckedNexts(FlowTrace(source)) == Nexts(source.items)
    ensures Terminations(FlowTrace(source)) == Terminal(source.end)
  {
    assert FlowTrace(source) == FlowItems(source.items) + Terminals(source.end);
    ItemsViews(source.items);
    TerminalsViews<T>(source.end);
    ViewsAppend(FlowItems(source.items), Terminals(source.end));
  }

  lemma {:induction false} ItemsViews<T>(bites: seq<Bite<T>>)
    ensures DeliveredValues(FlowItems(bites)) == Values(bites)
    ensures AckedNexts(FlowItems(bites)) == Nexts(bites)
    ensures Terminations(FlowItems(bites)) == []
  {
    if bites != [] {
      var init, last := bites[..|bites| - 1], bites[|bites| - 1];
      ItemsViews(init);
      PairViews(last);
      ViewsAppend(FlowItems(init), [Delivered(last.value), Acked(last.next)]);
      assert bites == init + [last];
      ValuesAppend(init, [last]);
      NextsAppend(init, [last]);
    }
  }

  // ---------------------------------------------------------------------------
  // Flowables

  /** An observable as a subscriber can use it: a plain push observable that
      delivers `values` then ends, or a flowable that also exposes the
      consumable it was made from. */
  datatype Observable<T> =
    | PushOnly(values: seq<T>, end: End)
    | Flowable(consume: Stream<Bite<T>>)

  /** Duck-typing: an observable supports back-pressure when it carries a
      `consume` member. */
  predicate IsFlowable<T>(o: Observable<T>)
  {
    o.Flowable?
  }

  /** `flowable(source)`: a flowable whose `consume` is `source` itself. */
  function MakeFlowable<T>(source: Stream<Bite<T>>): (o: Observable<T>)
    ensures IsFlowable(o) && o.consume == source
  {
    Flowable(source)
  }

  /** The deliveries of a plain push observable, one per value. */
  function Pushes<T>(values: seq<T>): seq<Signal<T>>
  {
    if values == [] then [] else [Delivered(values[0])] + Pushes(values[1..])
  }

  /** What a push subscriber to `o` observes: for a flowable, subscribing runs
      `flow` on its consumable. */
  function Subscribe<T>(o: Observable<T>): seq<Signal<T>>
  {
    match o
    case PushOnly(values, end) => Pushes(values) + Terminals(end)
    case Flowable(consume) => FlowTrace(consume)
  }

  /** A plain push observable is not flowable. */
  lemma PushOnlyNotFlowable<T>(values: seq<T>, end: End)
    ensures !IsFlowable(PushOnly(values, end))
  {
  }

  lemma {:induction false} PushesViews<T>(values: seq<T>)
    ensures DeliveredValues(Pushes(values)) == values
    ensures AckedNexts(Pushes(values)) == []
    ensures Terminations(Pushes(values)) == []
  {
    if values != [] {
      PushesViews(values[1..]);
      assert Pushes(values)[0] == Delivered(values[0]) && Pushes(values)[1..] == Pushes(values[1..]);
    }
  }

  /** A push observable delivers its values in order, then its termination,
      and acknowledges nothing. */
  lemma PushOnlyViews<T>(values: seq<T>, end: End)
    ensures DeliveredValues(Subscribe(PushOnly(values, end))) == values
    ensures AckedNexts(Subscribe(PushOnly(values, end))) == []
    ensures Terminations(Subscribe(PushOnly(values, end))) == Terminal(end)
  {
    PushesViews(values);
    TerminalsViews<T>(end);
    ViewsAppend(Pushes(values), Terminals(end));
  }

  /** Subscribing to `flowable(source)` runs `flow` on `source`: the push
      subscriber sees exactly what a plain observable of the source values and
      termination would deliver, while every bite is acknowledged in order. */
  lemma {:induction false} SubscribeFlowable<T>(source: Stream<Bite<T>>)
    ensures Subscribe(MakeFlowable(source)) == FlowTrace(source)
    ensures DeliveredValues(Subscribe(MakeFlowable(source))) == Values(source.items)
    ensures Terminations(Subscribe(MakeFlowable(source))) == Terminal(source.end)
    ensures AckedNexts(Subscribe(MakeFlowable(source))) == Nexts(source.items)
    ensures var plain := Subscribe(PushOnly(Values(source.items), source.end));
      DeliveredValues(Subscribe(MakeFlowable(source))) == DeliveredValues(plain)
      && Terminations(Subscribe(MakeFlowable(source))) == Terminations(plain)
  {
    FlowViews(source);
    PushOnlyViews(Values(source.items), source.end);
  }
}
