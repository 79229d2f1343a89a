/** The in-place loops of guac_surface.cpp over a buffer of height by width pixels. */
module PixelLoops {
  import opened Geometry
  import opened Pixels

  type Buffer = array2<Pixel>

  predicate InBuffer(b: Buffer, cx: int, cy: int) {
    0 <= cx < b.Length1 && 0 <= cy < b.Length0
  }

  predicate Fits(r: Rect, b: Buffer) {
    !r.Empty() && r.Within(b.Length1, b.Length0)
  }

  /** Column of `r` visited as the x-th of its row, walking forwards or backwards. */
  function Column(r: Rect, forwards: bool, x: int): int {
    r.x + if forwards then x else r.width - 1 - x
  }

  function Row(r: Rect, forwards: bool, y: int): int {
    r.y + if forwards then y else r.height - 1 - y
  }

  /** The pixel (cx, cy) of `r` is visited before the x-th pixel of the y-th row. */
  predicate Before(r: Rect, forwards: bool, cx: int, cy: int, x: int, y: int) {
    && r.Has(cx, cy)
    && if forwards then cy - r.y < y || (cy - r.y == y && cx - r.x < x)
       else r.height - 1 - (cy - r.y) < y || (r.height - 1 - (cy - r.y) == y && r.width - 1 - (cx - r.x) < x)
  }

  /** The loop has replaced `was` by `will` on the pixels visited so far. */
  ghost predicate Painted(b: Buffer, r: Rect, forwards: bool, was: Image, will: Image, x: int, y: int)
    reads b
  {
    forall cx, cy :: InBuffer(b, cx, cy) ==>
      b[cy, cx] == if Before(r, forwards, cx, cy, x, y) then will(cx, cy) else was(cx, cy)
  }

  /** `log` lists the pixels visited so far whose value changed. */
  ghost predicate Logged(log: Log, r: Rect, forwards: bool, was: Image, will: Image, x: int, y: int) {
    && LogFits(r, log)
    && forall cx, cy {:trigger (cx, cy) in ChangedBy(r, log)} ::
         (cx, cy) in ChangedBy(r, log) <==> Before(r, forwards, cx, cy, x, y) && was(cx, cy) != will(cx, cy)
  }

  /** The loop variables min_x, min_y, max_x, max_y in the coordinates of the walk. */
  ghost function WalkExtent(r: Rect, forwards: bool, log: Log): Extent {
    if forwards then ExtentOf(r, log) else Reversed(ExtentOf(r, log), r)
  }

  ghost function LogAfter(log: Log, r: Rect, forwards: bool, was: Image, will: Image, x: int, y: int): Log {
    var cx, cy := Column(r, forwards, x), Row(r, forwards, y);
    if was(cx, cy) != will(cx, cy) then Then(log, cx - r.x, cy - r.y) else log
  }

  lemma LogStep(log: Log, r: Rect, forwards: bool, was: Image, will: Image, x: int, y: int)
    requires 0 <= x < r.width && 0 <= y < r.height
    requires Logged(log, r, forwards, was, will, x, y)
    ensures Logged(LogAfter(log, r, forwards, was, will, x, y), r, forwards, was, will, x + 1, y)
  {}

  /** One turn of the inner loop: store a pixel, and note it if it differs. */
  method Visit(dst: Buffer, r: Rect, forwards: bool, x: int, y: int, pixel: Pixel, e: Extent,
               ghost log: Log, ghost was: Image, ghost will: Image)
    returns (e': Extent, ghost log': Log)
    requires Fits(r, dst) && 0 <= x < r.width && 0 <= y < r.height
    requires Painted(dst, r, forwards, was, will, x, y)
    requires Logged(log, r, forwards, was, will, x, y) && e == WalkExtent(r, forwards, log)
    requires pixel == will(Column(r, forwards, x), Row(r, forwards, y))
    modifies dst
    ensures Painted(dst, r, forwards, was, will, x + 1, y)
    ensures Logged(log', r, forwards, was, will, x + 1, y) && e' == WalkExtent(r, forwards, log')
  {
    LogStep(log, r, forwards, was, will, x, y);
    ReversedNote(ExtentOf(r, log), r, r.width - 1 - x, r.height - 1 - y);
    log' := LogAfter(log, r, forwards, was, will, x, y);
    e' := e;
    var cx, cy := Column(r, forwards, x), Row(r, forwards, y);
    if dst[cy, cx] != pixel {
      e' := Note(e, x, y);
      dst[cy, cx] := pixel;
    }
  }

  /** A finished row is the start of the next. */
  lemma NextRow(r: Rect, forwards: bool, y: int)
    ensures forall cx, cy :: Before(r, forwards, cx, cy, r.width, y) <==> Before(r, forwards, cx, cy, 0, y + 1)
  {}

  lemma AllVisited(r: Rect, forwards: bool)
    ensures forall cx, cy :: Before(r, forwards, cx, cy, 0, r.height) <==> r.Has(cx, cy)
    ensures forall cx, cy :: !Before(r, forwards, cx, cy, 0, 0)
  {}

  lemma WalkEnds(r: Rect, forwards: bool, log: Log, was: Image, will: Image)
    requires !r.Empty() && Logged(log, r, forwards, was, will, 0, r.height)
    ensures Reports(Restrict(r, ExtentOf(r, log)), r, ChangedBy(r, log))
    ensures forall cx, cy {:trigger (cx, cy) in ChangedBy(r, log)} ::
      (cx, cy) in ChangedBy(r, log) <==> r.Has(cx, cy) && was(cx, cy) != will(cx, cy)
  {
    LogReports(r, log);
    AllVisited(r, forwards);
  }

  /** In this order no source pixel is overwritten before it is read. */
  predicate SafeOrder(src: Buffer, sx: int, sy: int, dst: Buffer, r: Rect, forwards: bool) {
    || src != dst
    || (if forwards then r.y < sy || (r.y == sy && r.x <= sx) else r.y > sy || (r.y == sy && r.x >= sx))
  }

  ghost predicate Holds(b: Buffer, image: Image)
    reads b
  {
    forall cx, cy :: InBuffer(b, cx, cy) ==> b[cy, cx] == image(cx, cy)
  }

  /** Source pixels come from `from`, which is `was` when there is only one buffer. */
  ghost predicate Readable(src: Buffer, dst: Buffer, from: Image, was: Image)
    reads src
  {
    if src == dst then forall cx, cy :: InBuffer(dst, cx, cy) ==> from(cx, cy) == was(cx, cy) else Holds(src, from)
  }

  /** The picture in a buffer at this moment. */
  lemma Snapshot(b: Buffer) returns (image: Image)
    ensures Holds(b, image)
  {
    var pixels := map cx: int, cy: int | 0 <= cx < b.Length1 && 0 <= cy < b.Length0 :: (cx, cy) := b[cy, cx];
    image := (cx, cy) => if (cx, cy) in pixels then pixels[(cx, cy)] else ZERO;
  }

  /** The picture in part of a buffer, as it is moved to a rectangle. */
  lemma SnapshotAt(b: Buffer, sx: int, sy: int, r: Rect) returns (image: Image)
    requires Rect(sx, sy, r.width, r.height).Within(b.Length1, b.Length0)
    ensures forall cx, cy {:trigger image(cx, cy)} :: r.Has(cx, cy) ==> image(cx, cy) == b[cy - r.y + sy, cx - r.x + sx]
  {
    var whole := Snapshot(b);
    image := (cx, cy) => whole(cx - r.x + sx, cy - r.y + sy);
    forall cx, cy | r.Has(cx, cy) ensures image(cx, cy) == b[cy - r.y + sy, cx - r.x + sx] {
      assert InBuffer(b, cx - r.x + sx, cy - r.y + sy);
    }
  }

  lemma Replaced(from: Image, sx: int, sy: int, f: (Pixel, Pixel) -> Pixel, was: Image, r: Rect) returns (will: Image)
    ensures Replaces(will, from, sx, sy, f, was, r)
  {
    will := (cx, cy) => if r.Has(cx, cy) then f(from(cx - r.x + sx, cy - r.y + sy), was(cx, cy)) else was(cx, cy);
  }

  /** `will` is `was` with every pixel of `r` replaced by f of a pixel of `from` and itself. */
  ghost predicate Replaces(will: Image, from: Image, sx: int, sy: int, f: (Pixel, Pixel) -> Pixel, was: Image,
    r: Rect) {
    forall cx, cy {:trigger will(cx, cy)} :: will(cx, cy) ==
      (if r.Has(cx, cy) then f(from(cx - r.x + sx, cy - r.y + sy), was(cx, cy)) else was(cx, cy))
  }

  /** The inner loop of WalkImages. */
  method WalkRow(src: Buffer, sx: int, sy: int, f: (Pixel, Pixel) -> Pixel, dst: Buffer, r: Rect, forwards: bool,
    y: int,
                 e0: Extent, ghost log0: Log, ghost from: Image, ghost was: Image, ghost will: Image)
    returns (e: Extent, ghost log: Log)
    requires Fits(r, dst) && Fits(Rect(sx, sy, r.width, r.height), src) && SafeOrder(src, sx, sy, dst, r, forwards)
    requires 0 <= y < r.height
    requires Readable(src, dst, from, was)
    requires Replaces(will, from, sx, sy, f, was, r)
    requires Painted(dst, r, forwards, was, will, 0, y)
    requires Logged(log0, r, forwards, was, will, 0, y) && e0 == WalkExtent(r, forwards, log0)
    modifies dst
    ensures Painted(dst, r, forwards, was, will, 0, y + 1)
    ensures Logged(log, r, forwards, was, will, 0, y + 1) && e == WalkExtent(r, forwards, log)
  {
    e, log := e0, log0;
    for x := 0 to r.width
      invariant Painted(dst, r, forwards, was, will, x, y)
      invariant Logged(log, r, forwards, was, will, x, y) && e == WalkExtent(r, forwards, log)
    {
      var cx, cy := Column(r, forwards, x), Row(r, forwards, y);
      var fx, fy := cx - r.x + sx, cy - r.y + sy;
      assert src[fy, fx] == from(fx, fy) by {
        assert src == dst ==> !Before(r, forwards, fx, fy, x, y);
      }
      e, log := Visit(dst, r, forwards, x, y, f(src[fy, fx], dst[cy, cx]), e, log, was, will);
    }
    NextRow(r, forwards, y);
  }

  /** The doubly nested loop, as a step from one picture to the next. */
  method WalkImages(src: Buffer, sx: int, sy: int, f: (Pixel, Pixel) -> Pixel, dst: Buffer, r: Rect, forwards: bool,
              ghost from: Image, ghost was: Image, ghost will: Image)
    returns (out: Rect, ghost changed: Points)
    requires Fits(r, dst) && Fits(Rect(sx, sy, r.width, r.height), src) && SafeOrder(src, sx, sy, dst, r, forwards)
    requires Holds(dst, was) && Holds(src, from)
    requires Replaces(will, from, sx, sy, f, was, r)
    modifies dst
    ensures Holds(dst, will)
    ensures Reports(out, r, changed)
    ensures forall cx, cy {:trigger (cx, cy) in changed} ::
      (cx, cy) in changed <==> r.Has(cx, cy) && was(cx, cy) != will(cx, cy)
  {
    AllVisited(r, forwards);
    var e := StartExtent(r);
    ghost var log := Unchanged;
    for y := 0 to r.height
      invariant Readable(src, dst, from, was)
      invariant Painted(dst, r, forwards, was, will, 0, y)
      invariant Logged(log, r, forwards, was, will, 0, y) && e == WalkExtent(r, forwards, log)
    {
      e, log := WalkRow(src, sx, sy, f, dst, r, forwards, y, e, log, from, was, will);
    }
    if !forwards {
      e := Reversed(e, r);
    }
    assert e == ExtentOf(r, log);
    out, changed := Restrict(r, e), ChangedBy(r, log);
    WalkEnds(r, forwards, log, was, will);
  }

  /** The loop shared by rect, put, fill_mask and transfer, which differ in the pixel they store. */
  method Walk(src: Buffer, sx: int, sy: int, f: (Pixel, Pixel) -> Pixel, dst: Buffer, r: Rect, forwards: bool)
    returns (out: Rect, ghost changed: Points)
    requires Fits(r, dst) && Fits(Rect(sx, sy, r.width, r.height), src) && SafeOrder(src, sx, sy, dst, r, forwards)
    modifies dst
    ensures forall cx, cy {:trigger dst[cy, cx]} :: InBuffer(dst, cx, cy) ==>
      dst[cy, cx] == if r.Has(cx, cy) then f(old(src[cy - r.y + sy, cx - r.x + sx]), old(dst[cy, cx]))
        else old(dst[cy, cx])
    ensures forall cx, cy {:trigger dst[cy, cx]} :: InBuffer(dst, cx, cy) && !out.Has(cx, cy) ==>
      dst[cy, cx] == old(dst[cy, cx])
    ensures Reports(out, r, changed)
    ensures forall cx, cy {:trigger (cx, cy) in changed} ::
      (cx, cy) in changed <==> r.Has(cx, cy) && dst[cy, cx] != old(dst[cy, cx])
  {
    ghost var was := Snapshot(dst);
    ghost var from := Snapshot(src);
    ghost var will := Replaced(from, sx, sy, f, was, r);
    out, changed := WalkImages(src, sx, sy, f, dst, r, forwards, from, was, will);
    forall cx, cy | InBuffer(dst, cx, cy) && !out.Has(cx, cy) ensures dst[cy, cx] == old(dst[cy, cx]) {
      assert (cx, cy) !in changed;
    }
  }

  /** __guac_common_surface_rect */
  method FillRect(dst: Buffer, rect: Rect, colour: Pixel) returns (out: Rect, ghost changed: Points)
    requires Fits(rect, dst)
    modifies dst
    ensures forall cx, cy {:trigger dst[cy, cx]} :: InBuffer(dst, cx, cy) ==>
      dst[cy, cx] == if rect.Has(cx, cy) then colour else old(dst[cy, cx])
    ensures forall cx, cy {:trigger dst[cy, cx]} :: InBuffer(dst, cx, cy) && !out.Has(cx, cy) ==>
      dst[cy, cx] == old(dst[cy, cx])
    ensures Reports(out, rect, changed)
    ensures forall cx, cy {:trigger (cx, cy) in changed} ::
      (cx, cy) in changed <==> rect.Has(cx, cy) && dst[cy, cx] != old(dst[cy, cx])
  {
    out, changed := Walk(dst, rect.x, rect.y, (s, d) => colour, dst, rect, true);
  }

  /** The value __guac_common_surface_put gives a destination pixel. */
  function PutPixel(src: Pixel, dst: Pixel, isOpaque: bool): Pixel {
    if isOpaque || src.alpha != 0 then Opaque(src) else dst
  }

  /** __guac_common_surface_put */
  method Put(src: Buffer, sx: int, sy: int, dst: Buffer, rect: Rect, isOpaque: bool)
    returns (sx': int, sy': int, out: Rect, ghost changed: Points)
    requires Fits(rect, dst) && src != dst
    requires Fits(Rect(sx, sy, rect.width, rect.height), src)
    modifies dst
    ensures forall cx, cy {:trigger dst[cy, cx]} :: InBuffer(dst, cx, cy) ==>
      dst[cy, cx] == if rect.Has(cx, cy)
                     then PutPixel(src[cy - rect.y + sy, cx - rect.x + sx], old(dst[cy, cx]), isOpaque)
                     else old(dst[cy, cx])
    ensures forall cx, cy {:trigger dst[cy, cx]} :: InBuffer(dst, cx, cy) && !out.Has(cx, cy) ==>
      dst[cy, cx] == old(dst[cy, cx])
    ensures Reports(out, rect, changed)
    ensures forall cx, cy {:trigger (cx, cy) in changed} ::
      (cx, cy) in changed <==> rect.Has(cx, cy) && dst[cy, cx] != old(dst[cy, cx])
    ensures sx' - sx == out.x - rect.x && sy' - sy == out.y - rect.y
  {
    out, changed := Walk(src, sx, sy, (s, d) => PutPixel(s, d, isOpaque), dst, rect, true);
    sx', sy' := sx + out.x - rect.x, sy + out.y - rect.y;
  }

  /** __guac_common_surface_fill_mask */
  method FillMask(src: Buffer, sx: int, sy: int, dst: Buffer, rect: Rect, colour: Pixel)
    requires Fits(rect, dst) && src != dst
    requires Fits(Rect(sx, sy, rect.width, rect.height), src)
    modifies dst
    ensures forall cx, cy {:trigger dst[cy, cx]} :: InBuffer(dst, cx, cy) ==>
      dst[cy, cx] == if rect.Has(cx, cy) && src[cy - rect.y + sy, cx - rect.x + sx].alpha != 0
                     then colour else old(dst[cy, cx])
  {
    var _, _ := Walk(src, sx, sy, (s: Pixel, d) => if s.alpha != 0 then colour else d, dst, rect, true);
  }

  /** __guac_common_surface_transfer; `src` and `dst` may be one buffer, and the rectangles may overlap in it. */
  method Transfer(src: Buffer, sx: int, sy: int, op: TransferFunction, dst: Buffer, rect: Rect)
    returns (sx': int, sy': int, out: Rect, ghost changed: Points)
    requires Fits(rect, dst)
    requires Fits(Rect(sx, sy, rect.width, rect.height), src)
    modifies dst
    ensures forall cx, cy {:trigger dst[cy, cx]} :: InBuffer(dst, cx, cy) ==>
      dst[cy, cx] == if rect.Has(cx, cy)
                     then Apply(op, old(src[cy - rect.y + sy, cx - rect.x + sx]), old(dst[cy, cx]))
                     else old(dst[cy, cx])
    ensures forall cx, cy {:trigger dst[cy, cx]} :: InBuffer(dst, cx, cy) && !out.Has(cx, cy) ==>
      dst[cy, cx] == old(dst[cy, cx])
    ensures Reports(out, rect, changed)
    ensures forall cx, cy {:trigger (cx, cy) in changed} ::
      (cx, cy) in changed <==> rect.Has(cx, cy) && dst[cy, cx] != old(dst[cy, cx])
    ensures sx' - sx == out.x - rect.x && sy' - sy == out.y - rect.y
  {
    // Copy forwards only if the destination is another surface or lies before the source.
    var forwards := src != dst || rect.y < sy || (rect.y == sy && rect.x < sx);
    out, changed := Walk(src, sx, sy, (s, d) => Apply(op, s, d), dst, rect, forwards);
    sx', sy' := sx + out.x - rect.x, sy + out.y - rect.y;
  }
}
