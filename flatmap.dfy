/** The `flatMap(project)` operator: concat-mapping that keeps the pull
    protocol.  Each outer bite's value is projected to an inner consumable;
    the inner bites are forwarded unchanged, and the outer bite's `next` is
    invoked when, and only when, its inner consumable completes.  Inner
    consumables are subscribed one after another, so they never interleave.

    `project` is a total function from the value to the finite observation of
    the inner consumable it yields. */
module FlatMap {
  import opened Bites

  /** What can be observed while the operator runs. */
  datatype Event<T, R> =
    | Mapped(value: T)         // `project` is applied to an outer value
    | Forwarded(bite: Bite<R>) // an inner bite is passed downstream
    | Called(next: Ack)        // an outer bite's `next` is invoked
    | Ended(end: End)          // the output stream terminates

  /** Forwarding the inner bites, unchanged and in order. */
  function Forwards<T, R>(items: seq<Bite<R>>): (es: seq<Event<T, R>>)
    ensures |es| == |items|
    ensures forall k | 0 <= k < |items| :: es[k] == Forwarded(items[k])
  {
    seq(|items|, k requires 0 <= k < |items| => Forwarded(items[k]))
  }

  /** The terminal signal passed downstream for `end`: none if it never comes. */
  function Ends<T, R>(end: End): (es: seq<Event<T, R>>)
    ensures |es| <= 1
    ensures es == [] <==> end == Never
    ensures es != [] ==> es[0] == Ended(end)
  {
    if end == Never then [] else [Ended(end)]
  }

  /** Events of `flatMap(project)` over the outer bites `outer`, followed by
      `outerEnd`.  An inner stream that errors ends the output with that
      error; one that never terminates stalls it; the outer termination is
      passed on once every inner stream has completed. */
  function Trace<T, R>(outer: seq<Bite<T>>, outerEnd: End, project: T -> Stream<Bite<R>>): seq<Event<T, R>>
    decreases |outer|
  {
    if outer == [] then Ends(outerEnd)
    else
      var inner := project(outer[0].value);
      [Mapped(outer[0].value)] + Forwards(inner.items)
      + if inner.end == Complete then [Called(outer[0].next)] + Trace(outer[1..], outerEnd, project)
        else Ends(inner.end)
  }

  // ---------------------------------------------------------------------------
  // Reference definitions

  /** The number of leading outer bites whose inner stream completes. */
  function Completed<T, R>(outer: seq<Bite<T>>, project: T -> Stream<Bite<R>>): (c: nat)
    ensures c <= |outer|
    ensures forall k | 0 <= k < c :: project(outer[k].value).end == Complete
    ensures c < |outer| ==> project(outer[c].value).end != Complete
    decreases |outer|
  {
    if outer == [] || project(outer[0].value).end != Complete then 0
    else 1 + Completed(outer[1..], project)
  }

  /** The number of outer bites whose inner stream is started: the completed
      ones and, if there is one, the first that does not complete. */
  function Started<T, R>(outer: seq<Bite<T>>, project: T -> Stream<Bite<R>>): (s: nat)
    ensures s <= |outer|
    ensures s == if Completed(outer, project) == |outer| then |outer| else Completed(outer, project) + 1
  {
    var c := Completed(outer, project);
    if c == |outer| then c else c + 1
  }

  /** The inner bites of each of `bs`, in order. */
  function InnerItems<T, R>(bs: seq<Bite<T>>, project: T -> Stream<Bite<R>>): (ss: seq<seq<Bite<R>>>)
    ensures |ss| == |bs|
    ensures forall k | 0 <= k < |bs| :: ss[k] == project(bs[k].value).items
  {
    seq(|bs|, k requires 0 <= k < |bs| => project(bs[k].value).items)
  }

  /** How the output terminates: as the outer stream does if every inner
      stream completes, as the first inner stream that does not otherwise. */
  function Outcome<T, R>(outer: seq<Bite<T>>, outerEnd: End, project: T -> Stream<Bite<R>>): (e: End)
    ensures Completed(outer, project) == |outer| ==> e == outerEnd
    ensures Completed(outer, project) < |outer| ==> e == project(outer[Completed(outer, project)].value).end
  {
    var c := Completed(outer, project);
    if c == |outer| then outerEnd else project(outer[c].value).end
  }

  /** The handling of one outer bite whose inner stream completes. */
  function Segment<T, R>(b: Bite<T>, project: T -> Stream<Bite<R>>): seq<Event<T, R>>
  {
    [Mapped(b.value)] + Forwards(project(b.value).items) + [Called(b.next)]
  }

  /** Segments of consecutive outer bites, one after the other. */
  function Segments<T, R>(bs: seq<Bite<T>>, project: T -> Stream<Bite<R>>): seq<Event<T, R>>
  {
    Flatten(seq(|bs|, k requires 0 <= k < |bs| => Segment(bs[k], project)))
  }

  // ---------------------------------------------------------------------------
  // Views of the event trace

  function MappedValues<T, R>(t: seq<Event<T, R>>): seq<T>
  {
    if t == [] then [] else (if t[0].Mapped? then [t[0].value] else []) + MappedValues(t[1..])
  }

  function ForwardedBites<T, R>(t: seq<Event<T, R>>): seq<Bite<R>>
  {
    if t == [] then [] else (if t[0].Forwarded? then [t[0].bite] else []) + ForwardedBites(t[1..])
  }

  function CalledNexts<T, R>(t: seq<Event<T, R>>): seq<Ack>
  {
    if t == [] then [] else (if t[0].Called? then [t[0].next] else []) + CalledNexts(t[1..])
  }

  function Endings<T, R>(t: seq<Event<T, R>>): seq<End>
  {
    if t == [] then [] else (if t[0].Ended? then [t[0].end] else []) + Endings(t[1..])
  }

  lemma {:induction false} MappedAppend<T, R>(a: seq<Event<T, R>>, b: seq<Event<T, R>>)
    ensures MappedValues(a + b) == MappedValues(a) + MappedValues(b)
  {
    if a == [] {
      assert a + b == b;
    } else {
      assert (a + b)[0] == a[0] && (a + b)[1..] == a[1..] + b;
      MappedAppend(a[1..], b);
    }
  }

  lemma {:induction false} ForwardedAppend<T, R>(a: seq<Event<T, R>>, b: seq<Event<T, R>>)
    ensures ForwardedBites(a + b) == ForwardedBites(a) + ForwardedBites(b)
  {
    if a == [] {
      assert a + b == b;
    } else {
      assert (a + b)[0] == a[0] && (a + b)[1..] == a[1..] + b;
      ForwardedAppend(a[1..], b);
    }
  }

  lemma {:induction false} CalledAppend<T, R>(a: seq<Event<T, R>>, b: seq<Event<T, R>>)
    ensures CalledNexts(a + b) == CalledNexts(a) + CalledNexts(b)
  {
    if a == [] {
      assert a + b == b;
    } else {
      assert (a + b)[0] == a[0] && (a + b)[1..] == a[1..] + b;
      CalledAppend(a[1..], b);
    }
  }

  lemma {:induction false} EndingsAppend<T, R>(a: seq<Event<T, R>>, b: seq<Event<T, R>>)
    ensures Endings(a + b) == Endings(a) + Endings(b)
  {
    if a == [] {
      assert a + b == b;
    } else {
      assert (a + b)[0] == a[0] && (a + b)[1..] == a[1..] + b;
      EndingsAppend(a[1..], b);
    }
  }

  lemma ViewsAppend<T, R>(a: seq<Event<T, R>>, b: seq<Event<T, R>>)
    ensures MappedValues(a + b) == MappedValues(a) + MappedValues(b)
    ensures ForwardedBites(a + b) == ForwardedBites(a) + ForwardedBites(b)
    ensures CalledNexts(a + b) == CalledNexts(a) + CalledNexts(b)
    ensures Endings(a + b) == Endings(a) + Endings(b)
  {
    MappedAppend(a, b);
    ForwardedAppend(a, b);
    CalledAppend(a, b);
    EndingsAppend(a, b);
  }

  lemma {:induction false} ForwardsViews<T, R>(items: seq<Bite<R>>)
    ensures var f := Forwards<T, R>(items);
      MappedValues(f) == [] && ForwardedBites(f) == items && CalledNexts(f) == [] && Endings(f) == []
  {
    if items != [] {
      ForwardsViews<T, R>(items[1..]);
      assert Forwards<T, R>(items)[1..] == Forwards<T, R>(items[1..]);
    }
  }

  lemma EndsViews<T, R>(end: End)
    ensures var f := Ends<T, R>(end);
      MappedValues(f) == [] && ForwardedBites(f) == [] && CalledNexts(f) == [] && Endings(f) == Terminal(end)
  {
    if end != Never {
      assert Ends<T, R>(end)[1..] == [];
    }
  }

  /** The views of the handling of one outer bite whose inner stream
      completes, followed by `rest`. */
  lemma CompletedViews<T, R>(v: T, items: seq<Bite<R>>, next: Ack, rest: seq<Event<T, R>>)
    ensures var t := [Mapped(v)] + Forwards(items) + ([Called(next)] + rest);
      && MappedValues(t) == [v] + MappedValues(rest)
      && ForwardedBites(t) == items + ForwardedBites(rest)
      && CalledNexts(t) == [next] + CalledNexts(rest)
      && Endings(t) == Endings(rest)
  {
    var m: seq<Event<T, R>> := [Mapped(v)];
    var f := Forwards<T, R>(items);
    var c: seq<Event<T, R>> := [Called(next)];
    assert m[1..] == [] && c[1..] == [];
    ForwardsViews<T, R>(items);
    ViewsAppend(m, f);
    ViewsAppend(c, rest);
    ViewsAppend(m + f, c + rest);
  }

  /** The views of the handling of one outer bite whose inner stream does not
      complete. */
  lemma StalledViews<T, R>(v: T, items: seq<Bite<R>>, end: End)
    ensures var t := [Mapped(v)] + Forwards(items) + Ends(end);
      && MappedValues(t) == [v]
      && ForwardedBites(t) == items
      && CalledNexts(t) == []
      && Endings(t) == Terminal(end)
  {
    var m: seq<Event<T, R>> := [Mapped(v)];
    var f := Forwards<T, R>(items);
    assert m[1..] == [];
    ForwardsViews<T, R>(items);
    EndsViews<T, R>(end);
    ViewsAppend(m, f);
    ViewsAppend(m + f, Ends(end));
  }

  /** The views of the events handling the first outer bite, in terms of those
      of the rest of the trace. */
  lemma StepViews<T, R>(outer: seq<Bite<T>>, outerEnd: End, project: T -> Stream<Bite<R>>)
    requires outer != []
    ensures var t := Trace(outer, outerEnd, project);
      var inner := project(outer[0].value);
      var rest := if inner.end == Complete then Trace(outer[1..], outerEnd, project) else [];
      && MappedValues(t) == [outer[0].value] + MappedValues(rest)
      && ForwardedBites(t) == inner.items + ForwardedBites(rest)
      && CalledNexts(t) == (if inner.end == Complete then [outer[0].next] else []) + CalledNexts(rest)
      && Endings(t) == (if inner.end == Complete then [] else Terminal(inner.end)) + Endings(rest)
  {
    var inner := project(outer[0].value);
    if inner.end == Complete {
      CompletedViews(outer[0].value, inner.items, outer[0].next, Trace(outer[1..], outerEnd, project));
    } else {
      StalledViews<T, R>(outer[0].value, inner.items, inner.end);
    }
  }

  lemma SegmentsCons<T, R>(bs: seq<Bite<T>>, project: T -> Stream<Bite<R>>)
    requires bs != []
    ensures Segments(bs, project) == Segment(bs[0], project) + Segments(bs[1..], project)
  {
    var ss := seq(|bs|, k requires 0 <= k < |bs| => Segment(bs[k], project));
    assert ss[1..] == seq(|bs[1..]|, k requires 0 <= k < |bs[1..]| => Segment(bs[1..][k], project));
  }

  // ---------------------------------------------------------------------------
  // What flatMap promises

  /** The output is the segments of the outer bites whose inner stream
      completes, one after the other, then the start of the first inner
      stream that does not, or the outer termination. */
  lemma {:induction false} TraceSegments<T, R>(outer: seq<Bite<T>>, outerEnd: End, project: T -> Stream<Bite<R>>)
    ensures var c := Completed(outer, project);
      Trace(outer, outerEnd, project)
      == Segments(outer[..c], project)
         + if c == |outer| then Ends(outerEnd)
           else [Mapped(outer[c].value)] + Forwards(project(outer[c].value).items) + Ends(project(outer[c].value).end)
    decreases |outer|
  {
    var c := Completed(outer, project);
    if c > 0 {
      TraceSegments(outer[1..], outerEnd, project);
      SegmentsCons(outer[..c], project);
      assert outer[..c][1..] == outer[1..][..c - 1];
    } else {
      assert Segments(outer[..0], project) == [];
    }
  }

  /** `project` is applied to the value of every outer bite whose inner stream
      is started, exactly once each and in arrival order. */
  lemma {:induction false} TraceMapped<T, R>(outer: seq<Bite<T>>, outerEnd: End, project: T -> Stream<Bite<R>>)
    ensures MappedValues(Trace(outer, outerEnd, project)) == Values(outer[..Started(outer, project)])
    decreases |outer|
  {
    if outer != [] {
      StepViews(outer, outerEnd, project);
      var bs := outer[..Started(outer, project)];
      if project(outer[0].value).end == Complete {
        TraceMapped(outer[1..], outerEnd, project);
        assert bs[1..] == outer[1..][..Started(outer[1..], project)];
      } else {
        assert bs == [outer[0]];
      }
    }
  }

  /** The bites passed downstream are exactly the inner bites, unchanged,
      inner stream after inner stream. */
  lemma {:induction false} TraceForwarded<T, R>(outer: seq<Bite<T>>, outerEnd: End, project: T -> Stream<Bite<R>>)
    ensures ForwardedBites(Trace(outer, outerEnd, project)) == Flatten(InnerItems(outer[..Started(outer, project)], project))
    decreases |outer|
  {
    if outer != [] {
      StepViews(outer, outerEnd, project);
      var bs := outer[..Started(outer, project)];
      var ss := InnerItems(bs, project);
      if project(outer[0].value).end == Complete {
        TraceForwarded(outer[1..], outerEnd, project);
        assert bs[1..] == outer[1..][..Started(outer[1..], project)];
        assert ss[1..] == InnerItems(bs[1..], project);
      } else {
        assert bs == [outer[0]];
        assert ss[1..] == [];
      }
    }
  }

  /** The `next` of an outer bite is invoked exactly when its inner stream
      completes, in arrival order, and never for the bite whose inner stream
      errors or never terminates, nor for any bite after it. */
  lemma {:induction false} TraceAcks<T, R>(outer: seq<Bite<T>>, outerEnd: End, project: T -> Stream<Bite<R>>)
    ensures CalledNexts(Trace(outer, outerEnd, project)) == Nexts(outer[..Completed(outer, project)])
    decreases |outer|
  {
    if outer != [] {
      StepViews(outer, outerEnd, project);
      var bs := outer[..Completed(outer, project)];
      if project(outer[0].value).end == Complete {
        TraceAcks(outer[1..], outerEnd, project);
        assert bs[1..] == outer[1..][..Completed(outer[1..], project)];
      } else {
        assert bs == [];
      }
    }
  }

  /** The output terminates at most once, as `Outcome` says: completion or
      error of the outer stream once every inner stream has completed, the
      error of the first inner stream that errors, or never if an inner or the
      outer stream never terminates. */
  lemma {:induction false} TraceEnding<T, R>(outer: seq<Bite<T>>, outerEnd: End, project: T -> Stream<Bite<R>>)
    ensures Endings(Trace(outer, outerEnd, project)) == Terminal(Outcome(outer, outerEnd, project))
    decreases |outer|
  {
    if outer == [] {
      EndsViews<T, R>(outerEnd);
    } else {
      StepViews(outer, outerEnd, project);
      var c := Completed(outer, project);
      if project(outer[0].value).end == Complete {
        TraceEnding(outer[1..], outerEnd, project);
        assert c == Completed(outer[1..], project) + 1;
        assert c < |outer| ==> outer[c] == outer[1..][c - 1];
        assert Outcome(outer, outerEnd, project) == Outcome(outer[1..], outerEnd, project);
      } else {
        assert c == 0;
      }
    }
  }

  /** A termination in `t`, if any, is its last event. */
  ghost predicate EndsLast<T, R>(t: seq<Event<T, R>>)
  {
    forall p | 0 <= p < |t| && t[p].Ended? :: p == |t| - 1
  }

  /** Nothing is passed downstream after the output terminates. */
  lemma {:induction false} TraceEndsLast<T, R>(outer: seq<Bite<T>>, outerEnd: End, project: T -> Stream<Bite<R>>)
    ensures EndsLast(Trace(outer, outerEnd, project))
    decreases |outer|
  {
    if outer != [] {
      var inner := project(outer[0].value);
      var head := [Mapped(outer[0].value)] + Forwards<T, R>(inner.items);
      if inner.end == Complete {
        TraceEndsLast<T, R>(outer[1..], outerEnd, project);
        var rest := Trace(outer[1..], outerEnd, project);
        var t := head + ([Called(outer[0].next)] + rest);
        forall p | 0 <= p < |t| && t[p].Ended?
          ensures p == |t| - 1
        {
          if p > |head| {
            assert t[p] == rest[p - |head| - 1];
          }
        }
      }
    }
  }

  /** The inner stream of the example: `x`, then `10 * x`, then completion. */
  function TenFold(x: nat): Stream<Bite<nat>>
  {
    Stream([Bite(x, Next(2 * x)), Bite(10 * x, Next(2 * x + 1))], Complete)
  }

  /** `x => [x, 10 * x]` over the outer values `1, 2` forwards `1, 10, 2, 20`,
      acknowledges both outer bites, then completes. */
  lemma Example()
    ensures var t := Trace<nat, nat>([Bite(1, Next(0)), Bite(2, Next(1))], Complete, TenFold);
      Values(ForwardedBites(t)) == [1, 10, 2, 20]
      && CalledNexts(t) == [Next(0), Next(1)]
      && Endings(t) == [Complete]
  {
    var outer: seq<Bite<nat>> := [Bite(1, Next(0)), Bite(2, Next(1))];
    assert outer[1..][1..] == [];
    assert Completed(outer, TenFold) == 2;
    TraceForwarded(outer, Complete, TenFold);
    TraceAcks(outer, Complete, TenFold);
    TraceEnding(outer, Complete, TenFold);
    var ss := InnerItems(outer, TenFold);
    assert outer[..2] == outer;
    assert ss[1..][1..] == [];
    assert Flatten(ss[1..]) == ss[1] + Flatten(ss[1..][1..]);
    assert Flatten(ss) == TenFold(1).items + TenFold(2).items;
  }
}
