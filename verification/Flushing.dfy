/** What guac_common_surface_flush makes of the deferred rectangles, as a function: the rectangles it sends. */
module Flushing {
  import opened Geometry

  const QUEUE_SIZE := 256

  datatype PngRect = PngRect(rect: Rect, flushed: bool)

  // ----- qsort with __guac_common_surface_png_rect_compare

  function Compare(a: PngRect, b: PngRect): int {
    if a.rect.y != b.rect.y then a.rect.y - b.rect.y
    else if a.rect.x != b.rect.x then a.rect.x - b.rect.x
    else if a.rect.width != b.rect.width then b.rect.width - a.rect.width
    else a.rect.height - b.rect.height
  }

  function Insert(r: PngRect, q: seq<PngRect>): (s: seq<PngRect>)
    ensures multiset(s) == multiset(q) + multiset{r}
  {
    if q == [] || Compare(r, q[0]) <= 0 then [r] + q
    else assert q == [q[0]] + q[1..]; [q[0]] + Insert(r, q[1..])
  }

  function Sort(q: seq<PngRect>): (s: seq<PngRect>)
    ensures multiset(s) == multiset(q) && |s| == |q|
  {
    if q == [] then [] else
      assert q == [q[0]] + q[1..];
      var s := Insert(q[0], Sort(q[1..]));
      assert |s| == |multiset(s)| == |multiset(q)|;
      s
  }

  ghost predicate InOrder(q: seq<PngRect>) { forall i, j :: 0 <= i < j < |q| ==> Compare(q[i], q[j]) <= 0 }

  /** Sequences with the same multiset have the same members, and as many. */
  lemma SameMembers(a: seq<PngRect>, b: seq<PngRect>)
    requires multiset(a) == multiset(b)
    ensures |a| == |b| && forall r :: r in a <==> r in b
  {
    assert |a| == |multiset(a)| && |b| == |multiset(b)|;
    forall r ensures r in a <==> r in b {
      assert r in a <==> r in multiset(a);
    }
  }

  lemma InsertMembers(r: PngRect, q: seq<PngRect>)
    ensures forall x :: x in Insert(r, q) ==> x == r || x in q
  {
    assert multiset([r] + q) == multiset(q) + multiset{r};
    SameMembers(Insert(r, q), [r] + q);
  }

  /** One entry in front. */
  lemma ConsInOrder(r: PngRect, q: seq<PngRect>)
    requires InOrder(q) && forall x :: x in q ==> Compare(r, x) <= 0
    ensures InOrder([r] + q)
  {}

  lemma {:induction false} InsertInOrder(r: PngRect, q: seq<PngRect>)
    requires InOrder(q)
    ensures InOrder(Insert(r, q))
  {
    if q == [] {
    } else if Compare(r, q[0]) <= 0 {
      forall x | x in q ensures Compare(r, x) <= 0 {
        assert Compare(q[0], x) <= 0;
      }
      ConsInOrder(r, q);
    } else {
      InsertInOrder(r, q[1..]);
      InsertMembers(r, q[1..]);
      ConsInOrder(q[0], Insert(r, q[1..]));
    }
  }

  lemma {:induction false} SortInOrder(q: seq<PngRect>)
    ensures InOrder(Sort(q))
  {
    if q != [] {
      SortInOrder(q[1..]);
      InsertInOrder(q[0], Sort(q[1..]));
    }
  }

  lemma FirstAlike(a: seq<PngRect>, b: seq<PngRect>)
    requires InOrder(a) && InOrder(b) && a != [] && b != [] && a[0] in b && b[0] in a
    requires !a[0].flushed && !b[0].flushed
    ensures a[0] == b[0]
  {
    assert Compare(a[0], b[0]) <= 0 && Compare(b[0], a[0]) <= 0;
  }

  lemma RestAlike(a: seq<PngRect>, b: seq<PngRect>)
    requires a != [] && b != [] && a[0] == b[0] && multiset(a) == multiset(b)
    ensures multiset(a[1..]) == multiset(b[1..])
  {
    assert a == [a[0]] + a[1..] && b == [b[0]] + b[1..];
    assert multiset(a[1..]) == multiset(a) - multiset{a[0]} && multiset(b[1..]) == multiset(b) - multiset{b[0]};
  }

  /** Entries that compare as equal are the same rectangle, so a sorted queue is the only one. */
  lemma {:induction false} OneOrder(a: seq<PngRect>, b: seq<PngRect>)
    requires InOrder(a) && InOrder(b) && multiset(a) == multiset(b)
    requires forall r :: r in a ==> !r.flushed
    ensures a == b
  {
    SameMembers(a, b);
    if a != [] {
      assert a[0] in a && b[0] in b;
      FirstAlike(a, b);
      RestAlike(a, b);
      OneOrder(a[1..], b[1..]);
      assert a == [a[0]] + a[1..] && b == [b[0]] + b[1..];
    }
  }

  /** Whatever sorts the queue, the result is this one. */
  lemma AnySort(q: seq<PngRect>, sorted: seq<PngRect>)
    requires InOrder(sorted) && multiset(sorted) == multiset(q) && forall r :: r in q ==> !r.flushed
    ensures sorted == Sort(q)
  {
    SortInOrder(q);
    SameMembers(sorted, q);
    OneOrder(sorted, Sort(q));
  }

  // ----- the flush

  /** The rectangles that are deferred: the queue, and the dirty rectangle if there is one. */
  datatype Deferral = Deferral(queue: seq<PngRect>, dirty: bool, rect: Rect)

  /** __guac_common_mark_dirty */
  function Marked(d: Deferral, r: Rect): Deferral {
    if r.Empty() then d else d.(dirty := true, rect := if d.dirty then Extend(d.rect, r) else r)
  }

  /** __guac_common_surface_flush_to_queue */
  function Enqueued(d: Deferral): Deferral {
    if d.dirty then d.(queue := d.queue + [PngRect(d.rect, false)], dirty := false) else d
  }

  /** One candidate of the inner loop, and whether it was taken. */
  function Offered(d: Deferral, j: nat, bounds: Rect): (r: (Deferral, bool))
    requires j < |d.queue|
    ensures |r.0.queue| == |d.queue|
  {
    var rect := Constrain(d.queue[j].rect, bounds);
    if d.queue[j].flushed then (d, false)
    else if rect.Empty() then (d.(queue := d.queue[j := PngRect(rect, true)]), false)
    else if (d.dirty && ShouldCombine(d.rect, rect, false)) || !d.dirty then
      (Marked(d.(queue := d.queue[j := PngRect(rect, true)]), rect), true)
    else (d.(queue := d.queue[j := PngRect(rect, false)]), false)
  }

  /** The inner loop from candidate j on, and how many were taken. */
  function Built(d: Deferral, j: nat, bounds: Rect): (r: (Deferral, nat))
    requires j <= |d.queue|
    ensures |r.0.queue| == |d.queue|
    decreases |d.queue| - j
  {
    if j == |d.queue| then (d, 0)
    else
      var offered := Offered(d, j, bounds);
      var rest := Built(offered.0, j + 1, bounds);
      (rest.0, rest.1 + if offered.1 then 1 else 0)
  }

  lemma BuiltStep(d: Deferral, j: nat, bounds: Rect, d': Deferral, taken: bool)
    requires j < |d.queue| && (d', taken) == Offered(d, j, bounds)
    ensures var rest := Built(d', j + 1, bounds);
      Built(d, j, bounds) == (rest.0, rest.1 + if taken then 1 else 0)
  {}

  /** What becomes of the rectangle built up from entry i: it is queued again, or sent. */
  predicate Requeues(d: Deferral, combined: nat, i: nat, original: nat) {
    (combined > 1 || i < original) && |d.queue| < QUEUE_SIZE
  }

  /** The rectangles sent by the outer loop from entry i on. */
  function Sends(d: Deferral, i: nat, original: nat, bounds: Rect): (sent: seq<Rect>)
    requires |d.queue| <= QUEUE_SIZE
    decreases QUEUE_SIZE - i
  {
    if i >= |d.queue| then []
    else if d.queue[i].flushed then Sends(d, i + 1, original, bounds)
    else
      var built := Built(d, i, bounds);
      if Requeues(built.0, built.1, i, original) then Sends(Enqueued(built.0), i + 1, original, bounds)
      else (if built.0.dirty then [built.0.rect] else []) + Sends(built.0.(dirty := false), i + 1, original, bounds)
  }

  /** The dirty rectangle joins the queue, which is sorted. */
  function Sorted(d: Deferral): (s: Deferral)
    ensures !s.dirty && |s.queue| == |d.queue| + if d.dirty then 1 else 0
  {
    var all := Enqueued(d);
    all.(queue := Sort(all.queue))
  }

  /** The rectangles a flush sends. */
  function Plan(d: Deferral, bounds: Rect): seq<Rect>
    requires |d.queue| < QUEUE_SIZE
  {
    Sends(Sorted(d), 0, |Sorted(d).queue|, bounds)
  }

  predicate Covers(list: seq<Rect>, px: int, py: int) {
    exists r :: r in list && r.Has(px, py)
  }

  // ----- nothing that is owed is lost

  ghost predicate InQueue(q: seq<PngRect>, lo: nat, px: int, py: int) {
    exists i :: lo <= i < |q| && !q[i].flushed && q[i].rect.Has(px, py)
  }

  /** The pixel is in a deferred rectangle, in the queue from index lo on. */
  ghost predicate Owed(d: Deferral, lo: nat, px: int, py: int) {
    (d.dirty && d.rect.Has(px, py)) || InQueue(d.queue, lo, px, py)
  }

  lemma OfferKeeps(d: Deferral, j: nat, bounds: Rect, lo: nat, px: int, py: int)
    requires j < |d.queue| && bounds.Has(px, py) && Owed(d, lo, px, py)
    ensures Owed(Offered(d, j, bounds).0, lo, px, py)
  {
    var d' := Offered(d, j, bounds).0;
    if !(d.dirty && d.rect.Has(px, py)) {
      var i :| lo <= i < |d.queue| && !d.queue[i].flushed && d.queue[i].rect.Has(px, py);
      if i != j || !d'.queue[j].flushed {
        assert !d'.queue[i].flushed && d'.queue[i].rect.Has(px, py);
      }
    }
  }

  lemma {:induction false} BuiltKeeps(d: Deferral, j: nat, bounds: Rect, lo: nat, px: int, py: int)
    requires j <= |d.queue| && bounds.Has(px, py) && Owed(d, lo, px, py)
    ensures Owed(Built(d, j, bounds).0, lo, px, py)
    decreases |d.queue| - j
  {
    if j < |d.queue| {
      OfferKeeps(d, j, bounds, lo, px, py);
      BuiltKeeps(Offered(d, j, bounds).0, j + 1, bounds, lo, px, py);
    }
  }

  /** Entries behind those offered stay as they are. */
  lemma {:induction false} BuiltBefore(d: Deferral, j: nat, bounds: Rect, i: nat)
    requires i < j <= |d.queue|
    ensures Built(d, j, bounds).0.queue[i] == d.queue[i]
    decreases |d.queue| - j
  {
    if j < |d.queue| {
      BuiltBefore(Offered(d, j, bounds).0, j + 1, bounds, i);
    }
  }

  /** The entry a rectangle is built up from is flushed, so what is owed is in the rectangle or further back. */
  lemma BuiltTakes(d: Deferral, i: nat, bounds: Rect, px: int, py: int)
    requires i < |d.queue| && !d.dirty && !d.queue[i].flushed && bounds.Has(px, py) && InQueue(d.queue, i, px, py)
    ensures Owed(Built(d, i, bounds).0, i + 1, px, py)
  {
    BuiltKeeps(d, i, bounds, i, px, py);
    BuiltBefore(Offered(d, i, bounds).0, i + 1, bounds, i);
    assert Built(d, i, bounds).0.queue[i].flushed;
  }

  lemma EnqueuedKeeps(d: Deferral, lo: nat, px: int, py: int)
    requires lo <= |d.queue| && Owed(d, lo, px, py)
    ensures InQueue(Enqueued(d).queue, lo, px, py)
  {
    var q := Enqueued(d).queue;
    if d.dirty && d.rect.Has(px, py) {
      assert q[|d.queue|] == PngRect(d.rect, false);
    } else {
      var i :| lo <= i < |d.queue| && !d.queue[i].flushed && d.queue[i].rect.Has(px, py);
      assert q[i] == d.queue[i];
    }
  }

  lemma CoversMore(a: seq<Rect>, b: seq<Rect>, px: int, py: int)
    ensures Covers(a + b, px, py) <==> Covers(a, px, py) || Covers(b, px, py)
  {}

  lemma {:induction false} SendsCover(d: Deferral, i: nat, original: nat, bounds: Rect, px: int, py: int)
    requires |d.queue| <= QUEUE_SIZE && !d.dirty && bounds.Has(px, py) && InQueue(d.queue, i, px, py)
    ensures Covers(Sends(d, i, original, bounds), px, py)
    decreases QUEUE_SIZE - i
  {
    if d.queue[i].flushed {
      assert InQueue(d.queue, i + 1, px, py);
      SendsCover(d, i + 1, original, bounds, px, py);
    } else {
      var built := Built(d, i, bounds);
      BuiltTakes(d, i, bounds, px, py);
      if Requeues(built.0, built.1, i, original) {
        EnqueuedKeeps(built.0, i + 1, px, py);
        SendsCover(Enqueued(built.0), i + 1, original, bounds, px, py);
      } else {
        var first := if built.0.dirty then [built.0.rect] else [];
        var d' := built.0.(dirty := false);
        CoversMore(first, Sends(d', i + 1, original, bounds), px, py);
        if built.0.dirty && built.0.rect.Has(px, py) {
          assert built.0.rect in first;
        } else {
          SendsCover(d', i + 1, original, bounds, px, py);
        }
      }
    }
  }

  lemma SortKeeps(q: seq<PngRect>, px: int, py: int)
    requires InQueue(q, 0, px, py)
    ensures InQueue(Sort(q), 0, px, py)
  {
    var i :| 0 <= i < |q| && !q[i].flushed && q[i].rect.Has(px, py);
    assert q[i] in multiset(q) && q[i] in multiset(Sort(q));
    assert q[i] in Sort(q);
  }

  /** Every pixel that is owed is sent; and if nothing is owed, nothing is. */
  lemma PlanCovers(d: Deferral, bounds: Rect, px: int, py: int)
    requires |d.queue| < QUEUE_SIZE && bounds.Has(px, py) && Owed(d, 0, px, py)
    ensures Covers(Plan(d, bounds), px, py)
  {
    EnqueuedKeeps(d, 0, px, py);
    SortKeeps(Enqueued(d).queue, px, py);
    SendsCover(Sorted(d), 0, |Sorted(d).queue|, bounds, px, py);
  }

  lemma PlanEmpty(d: Deferral, bounds: Rect)
    requires d.queue == [] && !d.dirty
    ensures Plan(d, bounds) == []
  {}
}
