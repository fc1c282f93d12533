/** What `batch(size)` promises, proved about the sequential meaning and the
    event specification of module `Batch`. */
module BatchProperties {
  import opened Bites
  import opened Batch

  // ---------------------------------------------------------------------------
  // Arithmetic on window positions

  lemma {:induction false} MulGap(q: int, w: int, size: int)
    requires q > w && size >= 1
    ensures q * size >= w * size + size
    decreases q - w
  {
    if q > w + 1 {
      MulGap(q - 1, w, size);
      assert q * size == (q - 1) * size + size;
    } else {
      assert q * size == w * size + size;
    }
  }

  /** The upstream bite `w * size + j` sits at index `j` of window `w`. */
  lemma WindowPosition(w: nat, size: nat, j: nat)
    requires size >= 1 && j < size
    ensures (w * size + j) / size == w && (w * size + j) % size == j
  {
    var a := w * size + j;
    var q, r := a / size, a % size;
    assert a == q * size + r;
    if q > w {
      MulGap(q, w, size);
    } else if q < w {
      MulGap(w, q, size);
    }
  }

  lemma DivShift(x: nat, size: nat)
    requires size >= 1
    ensures (x + size) / size == x / size + 1 && (x + size) % size == x % size
  {
    var q, r := x / size, x % size;
    assert x == q * size + r;
    assert x + size == (q + 1) * size + r;
    WindowPosition(q + 1, size, r);
  }

  // ---------------------------------------------------------------------------
  // The windows and the batches, as values

  /** Concatenating the batches in order gives back the source values. */
  lemma {:induction false} ChunksConcatenate<T>(vs: seq<T>, size: nat)
    requires size >= 1
    ensures Flatten(Chunks(vs, size)) == vs
    decreases |vs|
  {
    if |vs| > size {
      ChunksConcatenate(vs[size..], size);
      assert vs == vs[..size] + vs[size..];
    }
  }

  /** Every batch holds between 1 and `size` values, and every batch but the
      last holds exactly `size`. */
  lemma {:induction false} ChunksSized<T>(vs: seq<T>, size: nat)
    requires size >= 1
    ensures forall k | 0 <= k < |Chunks(vs, size)| ::
              1 <= |Chunks(vs, size)[k]| <= size
              && (k < |Chunks(vs, size)| - 1 ==> |Chunks(vs, size)[k]| == size)
    decreases |vs|
  {
    if |vs| > size {
      ChunksSized(vs[size..], size);
    }
  }

  /** There are `ceil(|vs| / size)` batches. */
  lemma {:induction false} ChunksCount<T>(vs: seq<T>, size: nat)
    requires size >= 1
    ensures |Chunks(vs, size)| == (|vs| + size - 1) / size
    decreases |vs|
  {
    if vs == [] {
      WindowPosition(0, size, size - 1);
    } else if |vs| <= size {
      WindowPosition(1, size, |vs| - 1);
    } else {
      ChunksCount(vs[size..], size);
      DivShift(|vs| - 1, size);
    }
  }

  /** `windowCount` opens `|vs| / size + 1` windows; the last one holds the
      `|vs| % size` remaining values, and so is empty when `size` divides `|vs|`. */
  lemma {:induction false} WindowsCount<T>(vs: seq<T>, size: nat)
    requires size >= 1
    ensures |Windows(vs, size)| == |vs| / size + 1
    ensures Windows(vs, size)[|vs| / size] == vs[|vs| - |vs| % size..]
    ensures |Windows(vs, size)[|vs| / size]| == |vs| % size
    decreases |vs|
  {
    if |vs| < size {
      WindowPosition(0, size, |vs|);
    } else {
      var rest := vs[size..];
      WindowsCount(rest, size);
      DivShift(|rest|, size);
      assert |rest| + size == |vs|;
      assert rest[|rest| - |rest| % size..] == vs[|vs| - |vs| % size..];
    }
  }

  /** Dropping the empty windows leaves exactly the reference batches. */
  lemma {:induction false} WindowsFiltered<T>(vs: seq<T>, size: nat)
    requires size >= 1
    ensures NonEmpty(Windows(vs, size)) == Chunks(vs, size)
    decreases |vs|
  {
    if |vs| >= size {
      var ws := Windows(vs, size);
      assert ws[0] == vs[..size] && ws[1..] == Windows(vs[size..], size);
      assert ws[0] != [];
      WindowsFiltered(vs[size..], size);
      if |vs| == size {
        assert vs[..size] == vs;
      }
    }
  }

  // ---------------------------------------------------------------------------
  // Views of the event trace

  /** The batch bites emitted, in emission order. */
  function Emissions<T>(t: seq<Event<T>>): seq<Bite<seq<T>>>
  {
    if t == [] then []
    else (if t[0].Emitted? then [t[0].batch] else []) + Emissions(t[1..])
  }

  lemma {:induction false} EmissionsAppend<T>(a: seq<Event<T>>, b: seq<Event<T>>)
    ensures Emissions(a + b) == Emissions(a) + Emissions(b)
  {
    if a != [] {
      assert (a + b)[0] == a[0] && (a + b)[1..] == a[1..] + b;
      EmissionsAppend(a[1..], b);
    } else {
      assert a + b == b;
    }
  }

  /** Which numbered events `Marks` picks out of a trace. */
  datatype Kind = AckMarks | ReleaseMarks | DoneMarks

  function Mark<T>(e: Event<T>, k: Kind): seq<nat>
  {
    match k
    case AckMarks => if e.Called? && e.next.Next? then [e.next.i] else []
    case ReleaseMarks => if e.Released? then [e.w] else []
    case DoneMarks => if e.WindowDone? then [e.w] else []
  }

  /** In order: the upstream indices of the bites acknowledged (`AckMarks`), the
      windows whose release completes (`ReleaseMarks`), or the windows whose
      inner stream completes (`DoneMarks`). */
  function Marks<T>(t: seq<Event<T>>, k: Kind): seq<nat>
  {
    if t == [] then [] else Mark(t[0], k) + Marks(t[1..], k)
  }

  lemma {:induction false} MarksAppend<T>(a: seq<Event<T>>, b: seq<Event<T>>, k: Kind)
    ensures Marks(a + b, k) == Marks(a, k) + Marks(b, k)
  {
    if a != [] {
      assert (a + b)[0] == a[0] && (a + b)[1..] == a[1..] + b;
      MarksAppend(a[1..], b, k);
    } else {
      assert a + b == b;
    }
  }

  lemma MarksOfPair<T>(x: Event<T>, y: Event<T>, k: Kind)
    ensures Marks([x, y], k) == Mark(x, k) + Mark(y, k)
  {
    assert [x, y][1..] == [y] && [y][1..] == [];
    assert Marks([y], k) == Mark(y, k) + Marks([y][1..], k);
    assert Marks([x, y], k) == Mark(x, k) + Marks([y], k);
  }

  lemma MarksOfTriple<T>(x: Event<T>, y: Event<T>, z: Event<T>, k: Kind)
    ensures Marks([x, y, z], k) == Mark(x, k) + Mark(y, k) + Mark(z, k)
  {
    assert [x, y, z][1..] == [y, z];
    MarksOfPair(y, z, k);
  }

  /** The numbers `lo, lo + 1, ..., hi - 1`. */
  function Range(lo: nat, hi: nat): (r: seq<nat>)
    requires lo <= hi
    ensures |r| == hi - lo && forall k | 0 <= k < |r| :: r[k] == lo + k
  {
    seq(hi - lo, k => lo + k)
  }

  lemma RangeSplit(lo: nat, mid: nat, hi: nat)
    requires lo <= mid <= hi
    ensures Range(lo, mid) + Range(mid, hi) == Range(lo, hi)
  {
  }

  function WindowOfAck(a: Ack, size: nat): nat
    requires size >= 1
  {
    match a
    case Next(i) => i / size
    case Release(w) => w
  }

  /** The window an event belongs to. */
  function WindowOf<T>(e: Event<T>, size: nat): nat
    requires size >= 1
  {
    match e
    case Received(a) => WindowOfAck(a, size)
    case Called(a) => WindowOfAck(a, size)
    case Emitted(b) => WindowOfAck(b.next, size)
    case Released(w) => w
    case WindowDone(w) => w
  }

  /** What must follow at once the receipt of the bite acknowledged by `a`:
      its acknowledgment if it is not last in its window, the completion of
      the window's release otherwise. */
  function OnReceipt<T>(a: Ack, size: nat): Event<T>
    requires size >= 1
  {
    match a
    case Next(i) => if i % size < size - 1 then Called(Next(i)) else Released(i / size)
    case Release(w) => Released(w)
  }

  /** Every receipt is followed at once by what `OnReceipt` demands. */
  ghost predicate AckedOnReceipt<T>(t: seq<Event<T>>, size: nat)
    requires size >= 1
  {
    forall p | 0 <= p < |t| && t[p].Received? :: p + 1 < |t| && t[p + 1] == OnReceipt(t[p].bite, size)
  }

  /** `e` is the invocation of the `next` of a bite that is last in its window. */
  predicate IsDeferred<T>(e: Event<T>, size: nat)
    requires size >= 1
  {
    e.Called? && e.next.Next? && e.next.i % size == size - 1
  }

  /** A batch bite whose `next` is `a` occurs in `s`. */
  ghost predicate EmittedWith<T>(s: seq<Event<T>>, a: Ack)
  {
    exists q | 0 <= q < |s| :: s[q].Emitted? && s[q].batch.next == a
  }

  /** The `next` of the last bite of a window is invoked only after the batch
      bite carrying it has been emitted. */
  ghost predicate DeferredAfterBatch<T>(t: seq<Event<T>>, size: nat)
    requires size >= 1
  {
    forall p | 0 <= p < |t| && IsDeferred(t[p], size) :: EmittedWith(t[..p], t[p].next)
  }

  /** The release of window `w` can be completed by the event `e` that
      precedes it: the invocation of the seed `next`, or the receipt of the
      window's last bite. */
  predicate Releases<T>(e: Event<T>, w: nat, size: nat)
    requires size >= 1
  {
    || e == Called(Release(w))
    || (e.Received? && e.bite.Next? && e.bite.i % size == size - 1 && e.bite.i / size == w)
  }

  /** Every release completes right after one of its two causes. */
  ghost predicate ReleaseCaused<T>(t: seq<Event<T>>, size: nat)
    requires size >= 1
  {
    forall p | 0 <= p < |t| && t[p].Released? :: p >= 1 && Releases(t[p - 1], t[p].w, size)
  }

  /** No window completes before its release has completed. */
  ghost predicate DoneAfterRelease<T>(t: seq<Event<T>>)
  {
    forall p | 0 <= p < |t| && t[p].WindowDone? :: Released(t[p].w) in t[..p]
  }

  /** Events appear window by window. */
  ghost predicate InWindowOrder<T>(t: seq<Event<T>>, size: nat)
    requires size >= 1
  {
    forall p, q | 0 <= p < q < |t| :: WindowOf(t[p], size) <= WindowOf(t[q], size)
  }

  /** Every event of `t` belongs to window `w` or a later one. */
  ghost predicate WindowsFrom<T>(t: seq<Event<T>>, size: nat, w: nat)
    requires size >= 1
  {
    forall i | 0 <= i < |t| :: WindowOf(t[i], size) >= w
  }

  /** Every event of `t` belongs to window `w`. */
  ghost predicate InWindow<T>(t: seq<Event<T>>, size: nat, w: nat)
    requires size >= 1
  {
    forall i | 0 <= i < |t| :: WindowOf(t[i], size) == w
  }

  // ---------------------------------------------------------------------------
  // The local properties survive concatenation

  lemma PrefixOfAppend<T>(a: seq<T>, b: seq<T>, p: nat)
    requires |a| <= p <= |a| + |b|
    ensures (a + b)[..p] == a + b[..p - |a|]
  {
  }

  lemma ReceiptAppend<T>(a: seq<Event<T>>, b: seq<Event<T>>, size: nat)
    requires size >= 1 && AckedOnReceipt(a, size) && AckedOnReceipt(b, size)
    ensures AckedOnReceipt(a + b, size)
  {
    var t := a + b;
    forall p | 0 <= p < |t| && t[p].Received?
      ensures p + 1 < |t| && t[p + 1] == OnReceipt(t[p].bite, size)
    {
      if p >= |a| {
        assert t[p] == b[p - |a|];
      }
    }
  }

  lemma ReleaseAppend<T>(a: seq<Event<T>>, b: seq<Event<T>>, size: nat)
    requires size >= 1 && ReleaseCaused(a, size) && ReleaseCaused(b, size)
    ensures ReleaseCaused(a + b, size)
  {
    var t := a + b;
    forall p | 0 <= p < |t| && t[p].Released?
      ensures p >= 1 && Releases(t[p - 1], t[p].w, size)
    {
      if p >= |a| {
        assert t[p] == b[p - |a|];
      }
    }
  }

  lemma DoneAppend<T>(a: seq<Event<T>>, b: seq<Event<T>>)
    requires DoneAfterRelease(a) && DoneAfterRelease(b)
    ensures DoneAfterRelease(a + b)
  {
    var t := a + b;
    forall p | 0 <= p < |t| && t[p].WindowDone?
      ensures Released(t[p].w) in t[..p]
    {
      if p < |a| {
        assert t[..p] == a[..p];
      } else {
        assert t[p] == b[p - |a|];
        PrefixOfAppend(a, b, p);
      }
    }
  }

  lemma DeferredAppend<T>(a: seq<Event<T>>, b: seq<Event<T>>, size: nat)
    requires size >= 1 && DeferredAfterBatch(a, size) && DeferredAfterBatch(b, size)
    ensures DeferredAfterBatch(a + b, size)
  {
    var t := a + b;
    forall p | 0 <= p < |t| && IsDeferred(t[p], size)
      ensures EmittedWith(t[..p], t[p].next)
    {
      if p < |a| {
        assert t[..p] == a[..p];
      } else {
        assert t[p] == b[p - |a|];
        var s := b[..p - |a|];
        var q :| 0 <= q < |s| && s[q].Emitted? && s[q].batch.next == t[p].next;
        PrefixOfAppend(a, b, p);
        assert t[..p][|a| + q] == s[q];
      }
    }
  }

  lemma OrderedAppend<T>(a: seq<Event<T>>, b: seq<Event<T>>, size: nat)
    requires size >= 1
    requires AckedOnReceipt(a, size) && AckedOnReceipt(b, size)
    requires ReleaseCaused(a, size) && ReleaseCaused(b, size)
    requires DoneAfterRelease(a) && DoneAfterRelease(b)
    requires DeferredAfterBatch(a, size) && DeferredAfterBatch(b, size)
    ensures AckedOnReceipt(a + b, size) && ReleaseCaused(a + b, size)
    ensures DoneAfterRelease(a + b) && DeferredAfterBatch(a + b, size)
  {
    ReceiptAppend(a, b, size);
    ReleaseAppend(a, b, size);
    DoneAppend(a, b);
    DeferredAppend(a, b, size);
  }

  // ---------------------------------------------------------------------------
  // One window

  lemma {:induction false} NoEmissions<T>(t: seq<Event<T>>)
    requires forall e | e in t :: !e.Emitted?
    ensures Emissions(t) == []
  {
    if t != [] {
      assert t[0] in t;
      NoEmissions(t[1..]);
    }
  }

  lemma {:induction false} ReceiptsMarks<T>(size: nat, w: nat, base: nat, n: nat)
    requires size >= 1 && n <= size
    ensures Marks(Receipts<T>(size, w, base, n), AckMarks) == Range(base, base + if n == size then n - 1 else n)
    ensures Marks(Receipts<T>(size, w, base, n), ReleaseMarks) == if n == size then [w] else []
    ensures Marks(Receipts<T>(size, w, base, n), DoneMarks) == []
  {
    if n > 0 {
      var prev := Receipts<T>(size, w, base, n - 1);
      var pair: seq<Event<T>> := [Received(Next(base + n - 1)), ReceiptEffect(size, w, base, n - 1)];
      ReceiptsMarks<T>(size, w, base, n - 1);
      MarksAppend(prev, pair, AckMarks);
      MarksAppend(prev, pair, ReleaseMarks);
      MarksAppend(prev, pair, DoneMarks);
      MarksOfPair(pair[0], pair[1], AckMarks);
      MarksOfPair(pair[0], pair[1], ReleaseMarks);
      MarksOfPair(pair[0], pair[1], DoneMarks);
      if n < size {
        RangeSplit(base, base + n - 1, base + n);
      }
    }
  }

  lemma {:induction false} ReceiptsEvents<T>(size: nat, w: nat, base: nat, n: nat)
    requires size >= 1 && base == w * size && n <= size
    ensures forall e | e in Receipts<T>(size, w, base, n) ::
              WindowOf(e, size) == w && !e.Emitted? && !e.WindowDone? && !IsDeferred(e, size)
  {
    if n > 0 {
      ReceiptsEvents<T>(size, w, base, n - 1);
      WindowPosition(w, size, n - 1);
    }
  }

  lemma ReceiptOrdered<T>(size: nat, w: nat, base: nat, j: nat)
    requires size >= 1 && base == w * size && j < size
    ensures var pair: seq<Event<T>> := [Received(Next(base + j)), ReceiptEffect(size, w, base, j)];
      AckedOnReceipt(pair, size) && ReleaseCaused(pair, size) && DoneAfterRelease(pair) && DeferredAfterBatch(pair, size)
  {
    var pair: seq<Event<T>> := [Received(Next(base + j)), ReceiptEffect(size, w, base, j)];
    WindowPosition(w, size, j);
    assert OnReceipt<T>(Next(base + j), size) == ReceiptEffect(size, w, base, j);
    assert pair[1].Released? ==> Releases(pair[0], w, size);
  }

  lemma {:induction false} ReceiptsOrdered<T>(size: nat, w: nat, base: nat, n: nat)
    requires size >= 1 && base == w * size && n <= size
    ensures var r := Receipts<T>(size, w, base, n);
      AckedOnReceipt(r, size) && ReleaseCaused(r, size) && DoneAfterRelease(r) && DeferredAfterBatch(r, size)
  {
    if n > 0 {
      var prev := Receipts<T>(size, w, base, n - 1);
      var pair: seq<Event<T>> := [Received(Next(base + n - 1)), ReceiptEffect(size, w, base, n - 1)];
      assert Receipts<T>(size, w, base, n) == prev + pair;
      ReceiptsOrdered<T>(size, w, base, n - 1);
      ReceiptOrdered<T>(size, w, base, n - 1);
      OrderedAppend(prev, pair, size);
    }
  }

  lemma ClosingMarks<T>(win: seq<T>, size: nat, w: nat, base: nat, k: Kind)
    requires size >= 1 && |win| <= size
    ensures Marks(Closing(win, size, w, base) + Acknowledged(win, size, w, base), k)
         == match k
            case AckMarks => if |win| == size then [base + size - 1] else []
            case ReleaseMarks => if |win| == size then [] else [w]
            case DoneMarks => [w]
  {
    var ca := Closing(win, size, w, base) + Acknowledged(win, size, w, base);
    if win == [] {
      assert ca == [Called(Release(w)), Released(w), WindowDone(w)];
      MarksOfTriple<T>(Called(Release(w)), Released(w), WindowDone(w), k);
    } else if |win| == size {
      var bb := BatchBite(win, size, w, base);
      assert ca == [Emitted(bb), WindowDone(w), Called(Next(base + size - 1))];
      MarksOfTriple(Emitted(bb), WindowDone(w), Called(Next(base + size - 1)), k);
    } else {
      var bb := BatchBite(win, size, w, base);
      var tail: seq<Event<T>> := [Called(Release(w)), Released(w), WindowDone(w)];
      assert ca == [Emitted(bb)] + tail;
      assert ca[0] == Emitted(bb) && ca[1..] == tail;
      MarksOfTriple<T>(Called(Release(w)), Released(w), WindowDone(w), k);
    }
  }

  /** One window acknowledges its bites in upstream order. */
  lemma WindowAckMarks<T>(win: seq<T>, size: nat, w: nat, base: nat)
    requires size >= 1 && |win| <= size
    ensures Marks(WindowTrace(win, size, w, base), AckMarks) == Range(base, base + |win|)
  {
    var r := Receipts<T>(size, w, base, |win|);
    var ca := Closing(win, size, w, base) + Acknowledged(win, size, w, base);
    assert WindowTrace(win, size, w, base) == r + ca;
    ReceiptsMarks<T>(size, w, base, |win|);
    ClosingMarks(win, size, w, base, AckMarks);
    MarksAppend(r, ca, AckMarks);
    if |win| == size {
      RangeLast(base, base + size - 1);
    }
  }

  lemma RangeCons(lo: nat, hi: nat)
    requires lo < hi
    ensures [lo] + Range(lo + 1, hi) == Range(lo, hi)
  {
  }

  lemma RangeLast(lo: nat, hi: nat)
    requires lo <= hi
    ensures Range(lo, hi) + [hi] == Range(lo, hi + 1)
  {
  }

  /** One window completes its release once and its inner stream once. */
  lemma WindowSignalMarks<T>(win: seq<T>, size: nat, w: nat, base: nat, k: Kind)
    requires size >= 1 && |win| <= size && k != AckMarks
    ensures Marks(WindowTrace(win, size, w, base), k) == [w]
  {
    var r := Receipts<T>(size, w, base, |win|);
    var ca := Closing(win, size, w, base) + Acknowledged(win, size, w, base);
    assert WindowTrace(win, size, w, base) == r + ca;
    ReceiptsMarks<T>(size, w, base, |win|);
    ClosingMarks(win, size, w, base, k);
    MarksAppend(r, ca, k);
  }

  lemma WindowInWindow<T>(win: seq<T>, size: nat, w: nat, base: nat)
    requires size >= 1 && base == w * size && |win| <= size
    ensures InWindow(WindowTrace(win, size, w, base), size, w)
  {
    var r := Receipts<T>(size, w, base, |win|);
    var ca := Closing(win, size, w, base) + Acknowledged(win, size, w, base);
    var t := WindowTrace(win, size, w, base);
    assert t == r + ca;
    ReceiptsEvents<T>(size, w, base, |win|);
    WindowPosition(w, size, size - 1);
    forall i | 0 <= i < |t|
      ensures WindowOf(t[i], size) == w
    {
      if i < |r| {
        assert t[i] == r[i] && r[i] in r;
      } else {
        assert t[i] == ca[i - |r|];
      }
    }
  }

  lemma WindowEmissions<T>(win: seq<T>, size: nat, w: nat, base: nat)
    requires size >= 1 && base == w * size && |win| <= size
    ensures Emissions(WindowTrace(win, size, w, base))
         == if win == [] then [] else [BatchBite(win, size, w, base)]
  {
    var r := Receipts<T>(size, w, base, |win|);
    var ck := Closing(win, size, w, base) + Acknowledged(win, size, w, base);
    assert WindowTrace(win, size, w, base) == r + ck;
    ReceiptsEvents<T>(size, w, base, |win|);
    NoEmissions(r);
    EmissionsAppend(r, ck);
    if win != [] {
      NoEmissions(ck[1..]);
    } else {
      NoEmissions(ck);
    }
  }

  lemma EmptyClosingOrdered<T>(size: nat, w: nat)
    requires size >= 1
    ensures var ck: seq<Event<T>> := [Called(Release(w)), Released(w), WindowDone(w)];
      AckedOnReceipt(ck, size) && ReleaseCaused(ck, size) && DoneAfterRelease(ck) && DeferredAfterBatch(ck, size)
  {
    var ck: seq<Event<T>> := [Called(Release(w)), Released(w), WindowDone(w)];
    assert ck[..2][1] == Released(w);
  }

  lemma FullClosingOrdered<T>(bb: Bite<seq<T>>, size: nat, w: nat, last: nat)
    requires size >= 1 && bb.next == Next(last)
    ensures var ck: seq<Event<T>> := [Emitted(bb), WindowDone(w), Called(Next(last))];
      AckedOnReceipt(ck, size) && ReleaseCaused(ck, size) && DeferredAfterBatch(ck, size)
  {
    var ck: seq<Event<T>> := [Emitted(bb), WindowDone(w), Called(Next(last))];
    assert ck[..2][0] == Emitted(bb);
  }

  lemma PartialClosingOrdered<T>(bb: Bite<seq<T>>, size: nat, w: nat)
    requires size >= 1
    ensures var ck: seq<Event<T>> := [Emitted(bb), Called(Release(w)), Released(w), WindowDone(w)];
      AckedOnReceipt(ck, size) && ReleaseCaused(ck, size) && DoneAfterRelease(ck) && DeferredAfterBatch(ck, size)
  {
    var ck: seq<Event<T>> := [Emitted(bb), Called(Release(w)), Released(w), WindowDone(w)];
    assert ck[..3][2] == Released(w);
  }

  /** Appending events whose window completions are all of window `w` keeps
      `DoneAfterRelease` once the release of `w` has completed. */
  lemma DoneAfterReleased<T>(a: seq<Event<T>>, b: seq<Event<T>>, w: nat)
    requires DoneAfterRelease(a) && Released(w) in a
    requires forall p | 0 <= p < |b| && b[p].WindowDone? :: b[p].w == w
    ensures DoneAfterRelease(a + b)
  {
    var t := a + b;
    forall p | 0 <= p < |t| && t[p].WindowDone?
      ensures Released(t[p].w) in t[..p]
    {
      if p < |a| {
        assert t[..p] == a[..p];
      } else {
        assert t[p] == b[p - |a|];
        var j :| 0 <= j < |a| && a[j] == Released(w);
        assert t[..p][j] == a[j];
      }
    }
  }

  lemma FullWindowOrdered<T>(win: seq<T>, size: nat, w: nat, base: nat)
    requires size >= 1 && base == w * size && |win| == size
    ensures var t := WindowTrace(win, size, w, base);
      AckedOnReceipt(t, size) && ReleaseCaused(t, size) && DoneAfterRelease(t) && DeferredAfterBatch(t, size)
  {
    var r := Receipts<T>(size, w, base, size);
    var last := base + size - 1;
    var bb := BatchBite(win, size, w, base);
    var ck := [Emitted(bb), WindowDone(w), Called(Next(last))];
    assert WindowTrace(win, size, w, base) == r + ck;
    ReceiptsOrdered<T>(size, w, base, size);
    FullClosingOrdered(bb, size, w, last);
    // The release was completed by the receipt of the last bite.
    assert r == Receipts<T>(size, w, base, size - 1) + [Received(Next(last)), Released(w)];
    assert r[|r| - 1] == Released(w);
    DoneAfterReleased(r, ck, w);
    ReceiptAppend(r, ck, size);
    ReleaseAppend(r, ck, size);
    DeferredAppend(r, ck, size);
  }

  lemma WindowOrdered<T>(win: seq<T>, size: nat, w: nat, base: nat)
    requires size >= 1 && base == w * size && |win| <= size
    ensures var t := WindowTrace(win, size, w, base);
      AckedOnReceipt(t, size) && ReleaseCaused(t, size) && DoneAfterRelease(t) && DeferredAfterBatch(t, size)
  {
    if |win| == size {
      FullWindowOrdered(win, size, w, base);
    } else {
      var r := Receipts<T>(size, w, base, |win|);
      ReceiptsOrdered<T>(size, w, base, |win|);
      if win == [] {
        var ck: seq<Event<T>> := [Called(Release(w)), Released(w), WindowDone(w)];
        assert WindowTrace(win, size, w, base) == r + ck;
        EmptyClosingOrdered<T>(size, w);
        OrderedAppend(r, ck, size);
      } else {
        var bb := BatchBite(win, size, w, base);
        var ck := [Emitted(bb), Called(Release(w)), Released(w), WindowDone(w)];
        assert WindowTrace(win, size, w, base) == r + ck;
        PartialClosingOrdered(bb, size, w);
        OrderedAppend(r, ck, size);
      }
    }
  }

  // ---------------------------------------------------------------------------
  // Consecutive windows

  /** Every batch bite is well formed: it holds 1 to `size` values; a full
      batch carries the `next` of the last raw bite of its window, a partial
      batch the seed `next` of its window. */
  predicate WellFormedBatch<T>(b: Bite<seq<T>>, size: nat)
    requires size >= 1
  {
    && 1 <= |b.value| <= size
    && (|b.value| == size ==> b.next.Next? && b.next.i % size == size - 1)
    && (|b.value| < size ==> b.next.Release?)
  }

  /** Every batch bite emitted in `t` is well formed. */
  ghost predicate WellFormedBatches<T>(t: seq<Event<T>>, size: nat)
    requires size >= 1
  {
    forall i | 0 <= i < |t| && t[i].Emitted? :: WellFormedBatch(t[i].batch, size)
  }

  lemma {:induction false} TraceAckMarks<T>(vs: seq<T>, size: nat, w: nat, base: nat)
    requires size >= 1
    ensures Marks(TraceFrom(vs, size, w, base), AckMarks) == Range(base, base + |vs|)
    decreases |vs|
  {
    if |vs| < size {
      WindowAckMarks(vs, size, w, base);
    } else {
      var a := WindowTrace(vs[..size], size, w, base);
      var b := TraceFrom(vs[size..], size, w + 1, base + size);
      assert TraceFrom(vs, size, w, base) == a + b;
      MarksAppend(a, b, AckMarks);
      WindowAckMarks(vs[..size], size, w, base);
      TraceAckMarks(vs[size..], size, w + 1, base + size);
      RangeSplit(base, base + size, base + |vs|);
    }
  }

  lemma {:induction false} TraceSignalMarks<T>(vs: seq<T>, size: nat, w: nat, base: nat, k: Kind)
    requires size >= 1 && k != AckMarks
    ensures Marks(TraceFrom(vs, size, w, base), k) == Range(w, w + |vs| / size + 1)
    decreases |vs|
  {
    if |vs| < size {
      WindowSignalMarks(vs, size, w, base, k);
      WindowPosition(0, size, |vs|);
      assert Range(w, w + 1) == [w];
    } else {
      var a := WindowTrace(vs[..size], size, w, base);
      var b := TraceFrom(vs[size..], size, w + 1, base + size);
      assert TraceFrom(vs, size, w, base) == a + b;
      MarksAppend(a, b, k);
      WindowSignalMarks(vs[..size], size, w, base, k);
      TraceSignalMarks(vs[size..], size, w + 1, base + size, k);
      var m := |vs[size..]|;
      DivShift(m, size);
      assert m + size == |vs|;
      RangeCons(w, w + |vs| / size + 1);
    }
  }

  /** The `k`-th of the batch bites `es` is the batch bite of window `w + k`
      over the chunk `cs[k]`. */
  ghost predicate BitesOf<T>(es: seq<Bite<seq<T>>>, cs: seq<seq<T>>, size: nat, w: nat)
    requires size >= 1
  {
    |es| == |cs| && forall k | 0 <= k < |cs| :: es[k] == BatchBite(cs[k], size, w + k, (w + k) * size)
  }

  lemma BitesOfCons<T>(e: Bite<seq<T>>, c: seq<T>, es: seq<Bite<seq<T>>>, cs: seq<seq<T>>, size: nat, w: nat)
    requires size >= 1 && e == BatchBite(c, size, w, w * size) && BitesOf(es, cs, size, w + 1)
    ensures BitesOf([e] + es, [c] + cs, size, w)
  {
    forall k | 0 <= k < |cs| + 1
      ensures ([e] + es)[k] == BatchBite(([c] + cs)[k], size, w + k, (w + k) * size)
    {
      if k > 0 {
        assert ([e] + es)[k] == es[k - 1] && ([c] + cs)[k] == cs[k - 1];
        assert w + 1 + (k - 1) == w + k;
      }
    }
  }

  /** The `k`-th batch bite emitted from window `w` on is the batch bite of
      window `w + k` over the `k`-th reference chunk. */
  lemma {:induction false} TraceEmissions<T>(vs: seq<T>, size: nat, w: nat, base: nat)
    requires size >= 1 && base == w * size
    ensures BitesOf(Emissions(TraceFrom(vs, size, w, base)), Chunks(vs, size), size, w)
    decreases |vs|
  {
    if |vs| < size {
      WindowEmissions(vs, size, w, base);
      LastWindow(vs, size, w, base);
    } else {
      var a := WindowTrace(vs[..size], size, w, base);
      var b := TraceFrom(vs[size..], size, w + 1, base + size);
      assert TraceFrom(vs, size, w, base) == a + b;
      EmissionsAppend(a, b);
      WindowEmissions(vs[..size], size, w, base);
      assert base + size == (w + 1) * size;
      TraceEmissions(vs[size..], size, w + 1, base + size);
      ChunksFull(vs, size);
      BitesOfCons(BatchBite(vs[..size], size, w, base), vs[..size], Emissions(b), Chunks(vs[size..], size), size, w);
    }
  }

  lemma {:induction false} TraceOrdered<T>(vs: seq<T>, size: nat, w: nat, base: nat)
    requires size >= 1 && base == w * size
    ensures var t := TraceFrom(vs, size, w, base);
      AckedOnReceipt(t, size) && ReleaseCaused(t, size) && DoneAfterRelease(t) && DeferredAfterBatch(t, size)
    decreases |vs|
  {
    if |vs| < size {
      WindowOrdered(vs, size, w, base);
    } else {
      var a := WindowTrace(vs[..size], size, w, base);
      var b := TraceFrom(vs[size..], size, w + 1, base + size);
      assert TraceFrom(vs, size, w, base) == a + b;
      WindowOrdered(vs[..size], size, w, base);
      assert base + size == (w + 1) * size;
      TraceOrdered(vs[size..], size, w + 1, base + size);
      OrderedAppend(a, b, size);
    }
  }

  lemma WindowWellFormed<T>(win: seq<T>, size: nat, w: nat, base: nat)
    requires size >= 1 && base == w * size && |win| <= size
    ensures WellFormedBatches(WindowTrace(win, size, w, base), size)
  {
    var r := Receipts<T>(size, w, base, |win|);
    var ca := Closing(win, size, w, base) + Acknowledged(win, size, w, base);
    var t := WindowTrace(win, size, w, base);
    assert t == r + ca;
    ReceiptsEvents<T>(size, w, base, |win|);
    assert forall i | 0 <= i < |r| :: r[i] in r;
    assert WellFormedBatches(r, size);
    WindowPosition(w, size, size - 1);
    assert WellFormedBatches(ca, size);
    WellFormedAppend(r, ca, size);
  }

  lemma WellFormedAppend<T>(a: seq<Event<T>>, b: seq<Event<T>>, size: nat)
    requires size >= 1 && WellFormedBatches(a, size) && WellFormedBatches(b, size)
    ensures WellFormedBatches(a + b, size)
  {
    var t := a + b;
    forall i | 0 <= i < |t| && t[i].Emitted?
      ensures WellFormedBatch(t[i].batch, size)
    {
      if i < |a| {
        assert t[i] == a[i];
      } else {
        assert t[i] == b[i - |a|];
      }
    }
  }

  lemma {:induction false} TraceWellFormed<T>(vs: seq<T>, size: nat, w: nat, base: nat)
    requires size >= 1 && base == w * size
    ensures WellFormedBatches(TraceFrom(vs, size, w, base), size)
    decreases |vs|
  {
    if |vs| < size {
      WindowWellFormed(vs, size, w, base);
    } else {
      WindowWellFormed(vs[..size], size, w, base);
      assert base + size == (w + 1) * size;
      TraceWellFormed(vs[size..], size, w + 1, base + size);
      WellFormedAppend(WindowTrace(vs[..size], size, w, base), TraceFrom(vs[size..], size, w + 1, base + size), size);
    }
  }

  lemma OrderAt<T>(a: seq<Event<T>>, b: seq<Event<T>>, size: nat, w: nat, p: nat, q: nat)
    requires size >= 1 && InWindow(a, size, w) && WindowsFrom(b, size, w + 1) && InWindowOrder(b, size)
    requires p < q < |a + b|
    ensures WindowOf((a + b)[p], size) <= WindowOf((a + b)[q], size)
  {
    var t := a + b;
    if p >= |a| {
      assert t[p] == b[p - |a|] && t[q] == b[q - |a|];
    } else if q < |a| {
      assert t[p] == a[p] && t[q] == a[q];
    } else {
      assert t[p] == a[p] && t[q] == b[q - |a|];
    }
  }

  lemma OrderAppend<T>(a: seq<Event<T>>, b: seq<Event<T>>, size: nat, w: nat)
    requires size >= 1 && InWindow(a, size, w) && WindowsFrom(b, size, w + 1) && InWindowOrder(b, size)
    ensures WindowsFrom(a + b, size, w) && InWindowOrder(a + b, size)
  {
    var t := a + b;
    forall i | 0 <= i < |t|
      ensures WindowOf(t[i], size) >= w
    {
      if i < |a| {
        assert t[i] == a[i];
      } else {
        assert t[i] == b[i - |a|];
      }
    }
    forall p, q | 0 <= p < q < |t|
      ensures WindowOf(t[p], size) <= WindowOf(t[q], size)
    {
      OrderAt(a, b, size, w, p, q);
    }
  }

  lemma {:induction false} TraceWindows<T>(vs: seq<T>, size: nat, w: nat, base: nat)
    requires size >= 1 && base == w * size
    ensures WindowsFrom(TraceFrom(vs, size, w, base), size, w)
    ensures InWindowOrder(TraceFrom(vs, size, w, base), size)
    decreases |vs|
  {
    if |vs| < size {
      WindowInWindow(vs, size, w, base);
    } else {
      WindowInWindow(vs[..size], size, w, base);
      assert base + size == (w + 1) * size;
      TraceWindows(vs[size..], size, w + 1, base + size);
      OrderAppend(WindowTrace(vs[..size], size, w, base), TraceFrom(vs[size..], size, w + 1, base + size), size, w);
    }
  }

  // ---------------------------------------------------------------------------
  // Pull and window sequencing

  /** Every raw bite after bite `base` is received only once the bite before it
      has been acknowledged: the operator never makes upstream deliver early. */
  ghost predicate PullFrom<T>(t: seq<Event<T>>, base: nat)
  {
    forall p | 0 <= p < |t| && t[p].Received? && t[p].bite.Next? && t[p].bite.i > base ::
      Called(Next(t[p].bite.i - 1)) in t[..p]
  }

  /** Every event of a window after window `w` comes after the completion of
      the window before it. */
  ghost predicate SequentialFrom<T>(t: seq<Event<T>>, size: nat, w: nat)
    requires size >= 1
  {
    forall q | 0 <= q < |t| && WindowOf(t[q], size) > w :: WindowDone(WindowOf(t[q], size) - 1) in t[..q]
  }

  /** Every bite received in `t` is an upstream bite with index `base` or later. */
  ghost predicate ReceivesFrom<T>(t: seq<Event<T>>, base: nat)
  {
    forall e | e in t && e.Received? :: e.bite.Next? && base <= e.bite.i
  }

  lemma ReceiptPull<T>(size: nat, w: nat, base: nat, j: nat)
    requires size >= 1
    ensures var pair: seq<Event<T>> := [Received(Next(base + j)), ReceiptEffect(size, w, base, j)];
      PullFrom(pair, base + j) && ReceivesFrom(pair, base + j)
  {
  }

  lemma {:induction false} ReceiptsPull<T>(size: nat, w: nat, base: nat, n: nat)
    requires size >= 1 && n <= size
    ensures var r := Receipts<T>(size, w, base, n);
      && PullFrom(r, base) && ReceivesFrom(r, base)
      && (0 < n < size ==> Called(Next(base + n - 1)) in r)
  {
    if n > 0 {
      var prev := Receipts<T>(size, w, base, n - 1);
      var pair: seq<Event<T>> := [Received(Next(base + n - 1)), ReceiptEffect(size, w, base, n - 1)];
      ReceiptsPull<T>(size, w, base, n - 1);
      ReceiptPull<T>(size, w, base, n - 1);
      PullAppend(prev, pair, base, base + n - 1);
      assert pair[1] in prev + pair;
    }
  }

  lemma PullAppend<T>(a: seq<Event<T>>, b: seq<Event<T>>, base: nat, mid: nat)
    requires base <= mid && PullFrom(a, base) && PullFrom(b, mid)
    requires ReceivesFrom(a, base) && ReceivesFrom(b, mid)
    requires mid > base ==> Called(Next(mid - 1)) in a
    ensures PullFrom(a + b, base) && ReceivesFrom(a + b, base)
  {
    var t := a + b;
    forall p | 0 <= p < |t| && t[p].Received? && t[p].bite.Next? && t[p].bite.i > base
      ensures Called(Next(t[p].bite.i - 1)) in t[..p]
    {
      if p < |a| {
        assert t[p] == a[p] && t[..p] == a[..p];
      } else {
        assert t[p] == b[p - |a|];
        assert t[p] in b;
        PrefixOfAppend(a, b, p);
      }
    }
  }

  lemma WindowPull<T>(win: seq<T>, size: nat, w: nat, base: nat)
    requires size >= 1 && |win| <= size
    ensures var t := WindowTrace(win, size, w, base);
      PullFrom(t, base) && ReceivesFrom(t, base)
  {
    var r := Receipts<T>(size, w, base, |win|);
    var ca := Closing(win, size, w, base) + Acknowledged(win, size, w, base);
    assert WindowTrace(win, size, w, base) == r + ca;
    ReceiptsPull<T>(size, w, base, |win|);
    PullAppend(r, ca, base, base);
  }

  lemma WindowCompletes<T>(win: seq<T>, size: nat, w: nat, base: nat)
    requires size >= 1 && |win| <= size
    ensures var t := WindowTrace(win, size, w, base);
      (|win| == size ==> Called(Next(base + size - 1)) in t) && WindowDone(w) in t
  {
    var r := Receipts<T>(size, w, base, |win|);
    var t := WindowTrace(win, size, w, base);
    if win == [] {
      assert t[|r| + 2] == WindowDone(w);
    } else if |win| == size {
      assert t[|r| + 1] == WindowDone(w) && t[|r| + 2] == Called(Next(base + size - 1));
    } else {
      assert t[|r| + 3] == WindowDone(w);
    }
  }

  lemma {:induction false} TracePull<T>(vs: seq<T>, size: nat, w: nat, base: nat)
    requires size >= 1
    ensures var t := TraceFrom(vs, size, w, base);
      PullFrom(t, base) && ReceivesFrom(t, base)
    decreases |vs|
  {
    if |vs| < size {
      WindowPull(vs, size, w, base);
    } else {
      var a := WindowTrace(vs[..size], size, w, base);
      var b := TraceFrom(vs[size..], size, w + 1, base + size);
      assert TraceFrom(vs, size, w, base) == a + b;
      WindowPull(vs[..size], size, w, base);
      WindowCompletes(vs[..size], size, w, base);
      TracePull(vs[size..], size, w + 1, base + size);
      PullAppend(a, b, base, base + size);
    }
  }

  lemma SequentialAt<T>(a: seq<Event<T>>, b: seq<Event<T>>, size: nat, w: nat, q: nat)
    requires size >= 1 && WindowDone(w) in a && SequentialFrom(b, size, w + 1) && InWindow(a, size, w)
    requires q < |a + b| && WindowOf((a + b)[q], size) > w
    ensures WindowDone(WindowOf((a + b)[q], size) - 1) in (a + b)[..q]
  {
    var t := a + b;
    if q < |a| {
      assert false;
    } else {
      var k := q - |a|;
      assert t[q] == b[k];
      var d := WindowDone(WindowOf(b[k], size) - 1);
      if WindowOf(b[k], size) == w + 1 {
        var j :| 0 <= j < |a| && a[j] == d;
        assert t[..q][j] == a[j];
      } else {
        assert d in b[..k];
        var j :| 0 <= j < k && b[..k][j] == d;
        assert t[..q][|a| + j] == b[j];
      }
    }
  }

  lemma SequentialAppend<T>(a: seq<Event<T>>, b: seq<Event<T>>, size: nat, w: nat)
    requires size >= 1 && WindowDone(w) in a && SequentialFrom(b, size, w + 1) && InWindow(a, size, w)
    ensures SequentialFrom(a + b, size, w)
  {
    forall q | 0 <= q < |a + b| && WindowOf((a + b)[q], size) > w
      ensures WindowDone(WindowOf((a + b)[q], size) - 1) in (a + b)[..q]
    {
      SequentialAt(a, b, size, w, q);
    }
  }

  lemma {:induction false} TraceSequential<T>(vs: seq<T>, size: nat, w: nat, base: nat)
    requires size >= 1 && base == w * size
    ensures SequentialFrom(TraceFrom(vs, size, w, base), size, w)
    decreases |vs|
  {
    if |vs| < size {
      WindowInWindow(vs, size, w, base);
    } else {
      var a := WindowTrace(vs[..size], size, w, base);
      var b := TraceFrom(vs[size..], size, w + 1, base + size);
      assert TraceFrom(vs, size, w, base) == a + b;
      WindowInWindow(vs[..size], size, w, base);
      WindowCompletes(vs[..size], size, w, base);
      assert base + size == (w + 1) * size;
      TraceSequential(vs[size..], size, w + 1, base + size);
      SequentialAppend(a, b, size, w);
    }
  }

  // ---------------------------------------------------------------------------
  // What batch(size) promises over a whole finite source

  /** The batches emitted downstream, in order, are the reference chunks, so
      concatenating them gives back the source values. */
  lemma BatchEmitsChunks<T>(vs: seq<T>, size: nat)
    requires size >= 1
    ensures Values(Emissions(BatchTrace(vs, size))) == Chunks(vs, size)
    ensures Flatten(Values(Emissions(BatchTrace(vs, size)))) == vs
  {
    TraceEmissions(vs, size, 0, 0);
    ChunksConcatenate(vs, size);
  }

  /** Every raw bite `0 .. |vs| - 1` is acknowledged exactly once, and the
      acknowledgments happen in upstream order. */
  lemma BatchAcksEachOnce<T>(vs: seq<T>, size: nat)
    requires size >= 1
    ensures Marks(BatchTrace(vs, size), AckMarks) == Range(0, |vs|)
  {
    TraceAckMarks(vs, size, 0, 0);
  }

  /** Every window `windowCount` opens, the trailing one included even when it
      is empty, has its release completed exactly once and completes exactly
      once, in window order: nothing stalls. */
  lemma BatchWindowsComplete<T>(vs: seq<T>, size: nat)
    requires size >= 1
    ensures Marks(BatchTrace(vs, size), ReleaseMarks) == Range(0, |Windows(vs, size)|)
    ensures Marks(BatchTrace(vs, size), DoneMarks) == Range(0, |Windows(vs, size)|)
  {
    TraceSignalMarks(vs, size, 0, 0, ReleaseMarks);
    TraceSignalMarks(vs, size, 0, 0, DoneMarks);
    WindowsCount(vs, size);
  }

  /** A bite that is not last in its window is acknowledged as soon as it is
      received; the last bite's `next` is invoked only after the batch bite
      carrying it has gone downstream; and no raw bite is received before the
      one before it has been acknowledged. */
  lemma BatchAckDiscipline<T>(vs: seq<T>, size: nat)
    requires size >= 1
    ensures AckedOnReceipt(BatchTrace(vs, size), size)
    ensures DeferredAfterBatch(BatchTrace(vs, size), size)
    ensures PullFrom(BatchTrace(vs, size), 0)
  {
    TraceOrdered(vs, size, 0, 0);
    TracePull(vs, size, 0, 0);
  }

  /** A release completes right after the receipt of its window's last bite
      or the invocation of its seed `next`, and no window completes before its
      release. */
  lemma BatchReleaseDiscipline<T>(vs: seq<T>, size: nat)
    requires size >= 1
    ensures ReleaseCaused(BatchTrace(vs, size), size)
    ensures DoneAfterRelease(BatchTrace(vs, size))
  {
    TraceOrdered(vs, size, 0, 0);
  }

  /** Windows are processed strictly one after another: events appear window
      by window, and nothing of window `w + 1` happens before window `w` has
      completed. */
  lemma BatchWindowsInOrder<T>(vs: seq<T>, size: nat)
    requires size >= 1
    ensures InWindowOrder(BatchTrace(vs, size), size)
    ensures SequentialFrom(BatchTrace(vs, size), size, 0)
  {
    TraceWindows(vs, size, 0, 0);
    TraceSequential(vs, size, 0, 0);
  }

  /** Every batch bite holds 1 to `size` values.  The `k`-th batch bite holds
      the `k`-th reference chunk; if it is full, its `next` is that of the last
      raw bite of window `k` (upstream bite `k * size + size - 1`), so
      acknowledging the batch acknowledges exactly that raw bite; otherwise
      its `next` is the seed `next` of window `k`. */
  lemma BatchBitesWellFormed<T>(vs: seq<T>, size: nat)
    requires size >= 1
    ensures WellFormedBatches(BatchTrace(vs, size), size)
    ensures |Emissions(BatchTrace(vs, size))| == |Chunks(vs, size)|
    ensures forall k | 0 <= k < |Chunks(vs, size)| ::
              && Emissions(BatchTrace(vs, size))[k].value == Chunks(vs, size)[k]
              && Emissions(BatchTrace(vs, size))[k].next
                 == if |Chunks(vs, size)[k]| == size then Next(k * size + size - 1) else Release(k)
  {
    TraceWellFormed(vs, size, 0, 0);
    TraceEmissions(vs, size, 0, 0);
  }

  lemma ExampleChunks()
    ensures Chunks([1, 2, 3, 4, 5], 2) == [[1, 2], [3, 4], [5]]
  {
    var vs := [1, 2, 3, 4, 5];
    assert vs[..2] == [1, 2] && vs[2..] == [3, 4, 5];
    assert vs[2..][..2] == [3, 4] && vs[2..][2..] == [5];
  }

  /** `[1, 2, 3, 4, 5]` in batches of 2 gives `[1, 2]`, `[3, 4]`, `[5]`: the
      first two carry the `next` of raw bites 1 and 3, the last the seed `next`
      of window 2. */
  lemma BatchExample()
    ensures Emissions(BatchTrace([1, 2, 3, 4, 5], 2))
         == [Bite([1, 2], Next(1)), Bite([3, 4], Next(3)), Bite([5], Release(2))]
  {
    var es := Emissions(BatchTrace([1, 2, 3, 4, 5], 2));
    ExampleChunks();
    TraceEmissions([1, 2, 3, 4, 5], 2, 0, 0);
    assert es[0] == BatchBite([1, 2], 2, 0, 0);
    assert es[1] == BatchBite([3, 4], 2, 1, 2);
    assert es[2] == BatchBite([5], 2, 2, 4);
  }
}
