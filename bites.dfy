/** The pull protocol's vocabulary: a bite is a value paired with the one-shot
    `next` callback that releases the following value.  Callbacks are modelled
    by their identity, so that a trace can say which one was invoked. */
module Bites {

  /** Identity of a `next` callback.
      - `Next(i)`: the acknowledgment of the i-th bite an upstream consumable delivers.
      - `Release(w)`: the synthetic seed `next` the batch operator creates for its
        window w; invoking it completes that window's release signal. */
  datatype Ack = Next(i: nat) | Release(w: nat)

  /** One value being processed by a consumer, with the callback that lets the
      next value arrive. */
  datatype Bite<T> = Bite(value: T, next: Ack)

  /** How an observed stream terminates: it completes, it errors, or it never
      terminates (it stalls). */
  datatype End = Complete | Error(reason: string) | Never

  /** A finite observation of a stream: the items it delivers, then how it ends. */
  datatype Stream<X> = Stream(items: seq<X>, end: End)

  /** The terminal signal an observer receives for `end`: none for a stream
      that never terminates. */
  function Terminal(end: End): (s: seq<End>)
    ensures |s| <= 1
    ensures s == [] <==> end == Never
    ensures s != [] ==> s[0] == end
  {
    if end == Never then [] else [end]
  }

  /** The values of a sequence of bites, in order. */
  function Values<T>(bites: seq<Bite<T>>): (vs: seq<T>)
    ensures |vs| == |bites|
    ensures forall k :: 0 <= k < |bites| ==> vs[k] == bites[k].value
  {
    if bites == [] then [] else [bites[0].value] + Values(bites[1..])
  }

  /** The `next` callbacks of a sequence of bites, in order. */
  function Nexts<T>(bites: seq<Bite<T>>): (ns: seq<Ack>)
    ensures |ns| == |bites|
    ensures forall k :: 0 <= k < |bites| ==> ns[k] == bites[k].next
  {
    if bites == [] then [] else [bites[0].next] + Nexts(bites[1..])
  }

  /** Concatenation of a sequence of sequences, in order. */
  function Flatten<X>(ss: seq<seq<X>>): seq<X>
  {
    if ss == [] then [] else ss[0] + Flatten(ss[1..])
  }

  lemma {:induction false} FlattenAppend<X>(a: seq<seq<X>>, b: seq<seq<X>>)
    ensures Flatten(a + b) == Flatten(a) + Flatten(b)
  {
    if a == [] {
      assert a + b == b;
    } else {
      assert (a + b)[0] == a[0] && (a + b)[1..] == a[1..] + b;
      FlattenAppend(a[1..], b);
    }
  }

  lemma ValuesAppend<T>(a: seq<Bite<T>>, b: seq<Bite<T>>)
    ensures Values(a + b) == Values(a) + Values(b)
  {
  }

  lemma NextsAppend<T>(a: seq<Bite<T>>, b: seq<Bite<T>>)
    ensures Nexts(a + b) == Nexts(a) + Nexts(b)
  {
  }
}
