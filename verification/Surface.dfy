/** The surface of guac_surface.cpp: a backing buffer whose drawing is deferred and combined. */
module Surfaces {
  import opened Geometry
  import opened Pixels
  import opened PixelLoops
  import opened Client
  import opened Flushing

  /** What may be asked of one surface. */
  datatype Command =
    | Drawing(x: int, y: int, src: Buffer, isOpaque: bool)
    | Painting(x: int, y: int, src: Buffer, colour: Colour)
    | Filling(area: Rect, colour: Colour)
    | Copying(sx: int, sy: int, w: int, h: int, dx: int, dy: int)
    | Transferring(sx: int, sy: int, w: int, h: int, op: TransferFunction, dx: int, dy: int)
    | Resizing(nw: nat, nh: nat)
    | Clipping(x: int, y: int, w: int, h: int)
    | Unclipping
    | Flushing

  lemma Regrouped<T>(a: seq<T>, b: seq<T>, c: seq<T>)
    ensures a + (b + c) == a + b + c
  {}

  class Surface {
    const layer: nat
    const socket: Socket
    const queue: array<PngRect>
    var width: int
    var height: int
    var buffer: Buffer
    var dirty: bool
    var dirtyRect: Rect
    var clipped: bool
    var clipRect: Rect
    var queueLength: nat

    // ----- what holds of the fields

    ghost predicate Shape()
      reads this
    {
      && buffer.Length0 == height && buffer.Length1 == width
      && queue.Length == QUEUE_SIZE && queueLength <= QUEUE_SIZE
      && (dirty ==> !dirtyRect.Empty() && dirtyRect.Within(width, height))
      && (clipped ==> clipRect.Within(width, height))
    }

    /** Some rectangle of the queue, from index `lo` on, still has to send this pixel. */
    ghost predicate Queued(lo: int, px: int, py: int)
      reads this, queue
      requires queueLength <= queue.Length
    {
      exists i :: 0 <= lo <= i < queueLength && !queue[i].flushed && queue[i].rect.Has(px, py)
    }

    ghost predicate Pending(px: int, py: int)
      reads this, queue
      requires queueLength <= queue.Length
    {
      (dirty && dirtyRect.Has(px, py)) || Queued(0, px, py)
    }

    /** Every client shows this colour. */
    ghost predicate Shown(px: int, py: int, colour: Colour)
      reads this, socket
    {
      forall k :: 0 <= k < |socket.clients| ==> socket.clients[k](layer).colour(px, py) == colour
    }

    /** Every client shows the colour that is in the buffer. */
    ghost predicate Fresh(px: int, py: int)
      reads this, buffer, socket
      requires InBuffer(buffer, px, py)
    {
      Shown(px, py, buffer[py, px].colour)
    }

    ghost predicate SizeKnown()
      reads this, socket
    {
      forall k :: 0 <= k < |socket.clients| ==>
        socket.clients[k](layer).width == width && socket.clients[k](layer).height == height
    }

    ghost predicate Ready()
      reads this, queue, socket
    {
      && Shape() && queueLength < QUEUE_SIZE && SizeKnown()
      && (forall i :: 0 <= i < queueLength ==> !queue[i].flushed)
    }

    /** The invariant of the synchroniser: what is not pending is on every client already. */
    ghost predicate Valid()
      reads this, buffer, queue, socket
    {
      Ready() && forall px, py :: InBuffer(buffer, px, py) ==> Fresh(px, py) || Pending(px, py)
    }

    /** Clients keep their other layers. */
    twostate predicate OtherLayersKept()
      reads socket
    {
      && |socket.clients| == |old(socket.clients)|
      && forall k, l :: 0 <= k < |socket.clients| && l != layer ==> socket.clients[k](l) == old(socket.clients[k])(l)
    }

    /** The rectangles that are deferred. */
    ghost function Deferred(): Deferral
      reads this, queue
      requires queueLength <= queue.Length
    {
      Deferral(queue[..queueLength], dirty, dirtyRect)
    }

    /** The rectangles that a flush would send. */
    ghost function FlushPlan(): seq<Rect>
      reads this, queue
      requires queueLength < QUEUE_SIZE <= queue.Length
    {
      Plan(Deferred(), Bounds())
    }

    /** The buffer holds these colours. */
    ghost predicate Depicts(image: Image)
      reads this, buffer
    {
      forall px, py :: InBuffer(buffer, px, py) ==> buffer[py, px].colour == image(px, py).colour
    }

    lemma PendingOwed(px: int, py: int)
      requires queueLength <= queue.Length
      ensures Pending(px, py) <==> Owed(Deferred(), 0, px, py)
    {
      var q := queue[..queueLength];
      if InQueue(q, 0, px, py) {
        var i :| 0 <= i < |q| && !q[i].flushed && q[i].rect.Has(px, py);
        assert !queue[i].flushed && queue[i].rect.Has(px, py);
      }
      if Queued(0, px, py) {
        var i :| 0 <= i < queueLength && !queue[i].flushed && queue[i].rect.Has(px, py);
        assert q[i] == queue[i];
      }
    }

    /** A flush sends whatever is pending, and nothing if nothing is. */
    lemma PendingPlanned()
      requires Ready()
      ensures forall px, py :: InBuffer(buffer, px, py) && Pending(px, py) ==> Covers(FlushPlan(), px, py)
      ensures !dirty && queueLength == 0 ==> FlushPlan() == []
    {
      forall px, py | InBuffer(buffer, px, py) && Pending(px, py) ensures Covers(FlushPlan(), px, py) {
        PendingOwed(px, py);
        PlanCovers(Deferred(), Bounds(), px, py);
      }
      if !dirty && queueLength == 0 {
        PlanEmpty(Deferred(), Bounds());
      }
    }

    /** guac_common_surface_alloc for a layer, on clients that show nothing on it yet. */
    constructor (socket: Socket, layer: nat, w: nat, h: nat)
      requires forall k, px, py :: 0 <= k < |socket.clients| ==> socket.clients[k](layer).colour(px, py) == BLACK_COLOUR
      modifies socket
      ensures Valid() && fresh(buffer) && fresh(queue)
      ensures this.socket == socket && this.layer == layer && width == w && height == h
      ensures !dirty && queueLength == 0 && !clipped && |socket.clients| == |old(socket.clients)|
      ensures forall k, l :: 0 <= k < |socket.clients| && l != layer ==>
        socket.clients[k](l) == old(socket.clients[k])(l)
      ensures forall px, py :: InBuffer(buffer, px, py) ==> buffer[py, px] == ZERO
    {
      this.socket, this.layer, width, height := socket, layer, w, h;
      dirty, dirtyRect, clipped, clipRect, queueLength := false, Rect(0, 0, 0, 0), false, Rect(0, 0, 0, 0), 0;
      buffer := new Pixel[h, w]((_, _) => ZERO);
      queue := new PngRect[QUEUE_SIZE](_ => PngRect(Rect(0, 0, 0, 0), false));
      new;
      ghost var size := Size(layer, w, h);
      socket.Send(Size(layer, w, h));
      forall k | 0 <= k < |socket.clients|
        ensures socket.clients[k](layer) == Drawn(old(socket.clients[k]), size)
        ensures forall l :: l != layer ==> socket.clients[k](l) == old(socket.clients[k])(l)
      {
        assert socket.clients[k] == Execute(old(socket.clients[k]), size);
      }
      assert forall px, py :: InBuffer(buffer, px, py) ==> Fresh(px, py);
    }

    // ----- deferring

    function Bounds(): Rect
      reads this
    {
      Rect(0, 0, width, height)
    }

    predicate ShouldCombineWith(rect: Rect, rectOnly: bool)
      reads this
    {
      dirty && ShouldCombine(dirtyRect, rect, rectOnly)
    }

    /** __guac_common_mark_dirty */
    method MarkDirty(rect: Rect)
      requires Shape() && rect.Within(width, height)
      modifies this`dirty, this`dirtyRect
      ensures Shape()
      ensures rect.Empty() ==> dirty == old(dirty) && dirtyRect == old(dirtyRect)
      ensures !rect.Empty() ==>
        dirty && dirtyRect == if old(dirty) then Extend(old(dirtyRect), rect) else rect
    {
      if rect.width <= 0 || rect.height <= 0 {
        return;
      }
      if dirty {
        dirtyRect := Extend(dirtyRect, rect);
      } else {
        dirtyRect := rect;
        dirty := true;
      }
    }

    /** __guac_common_surface_flush_to_queue; there must be space in the queue. */
    method FlushToQueue()
      requires Shape() && (dirty ==> queueLength < QUEUE_SIZE)
      modifies this`dirty, this`queueLength, queue
      ensures Shape() && !dirty
      ensures queueLength == old(queueLength) + if old(dirty) then 1 else 0
      ensures forall i :: 0 <= i < old(queueLength) ==> queue[i] == old(queue[i])
      ensures old(dirty) ==> queue[old(queueLength)] == PngRect(dirtyRect, false)
      ensures Deferred() == Enqueued(old(Deferred()))
    {
      if !dirty {
        return;
      }
      queue[queueLength] := PngRect(dirtyRect, false);
      queueLength := queueLength + 1;
      dirty := false;
    }

    /** The colours of an area of the buffer, as sent in a "png" instruction. */
    method Encode(r: Rect) returns (rows: Rows)
      requires buffer.Length0 == height && buffer.Length1 == width
      requires r.Within(width, height) && r.width >= 0 && r.height >= 0
      ensures forall px, py :: r.Has(px, py) ==> ColourAt(rows, px - r.x, py - r.y) == buffer[py, px].colour
    {
      rows := [];
      for y := 0 to r.height
        invariant |rows| == y && forall i :: 0 <= i < y ==> |rows[i]| == r.width
        invariant forall i, j :: 0 <= i < y && 0 <= j < r.width ==> rows[i][j] == buffer[r.y + i, r.x + j].colour
      {
        var row := [];
        for x := 0 to r.width
          invariant |row| == x
          invariant forall j :: 0 <= j < x ==> row[j] == buffer[r.y + y, r.x + j].colour
        {
          row := row + [buffer[r.y + y, r.x + x].colour];
        }
        rows := rows + [row];
      }
    }

    /** __guac_common_surface_flush_to_png */
    method FlushToPng(ghost image: Image)
      requires Shape() && SizeKnown() && Depicts(image)
      modifies this`dirty, socket
      ensures Shape() && !dirty && SizeKnown() && OtherLayersKept()
      ensures Repainted(old(socket.clients), socket.clients, layer, Bounds(), image,
        if old(dirty) then [dirtyRect] else [])
    {
      if dirty {
        assert forall px, py :: Covers([dirtyRect], px, py) <==> dirtyRect.Has(px, py);
        var rows := Encode(dirtyRect);
        socket.Send(Png(layer, dirtyRect, rows));
        dirty := false;
      }
    }

    // ----- flushing

    /** qsort. Entries that compare as equal are the same rectangle, so there is one result. */
    method QSort()
      requires Shape()
      modifies queue
      ensures queue[..queueLength] == Sort(old(queue[..queueLength]))
      ensures multiset(queue[..queueLength]) == old(multiset(queue[..queueLength]))
    {
      var sorted := Sort(queue[..queueLength]);
      for i := 0 to queueLength
        invariant queue[..i] == sorted[..i]
      {
        queue[i] := sorted[i];
      }
      assert queue[..queueLength] == sorted;
    }

    /** One candidate of the inner loop of guac_common_surface_flush. */
    method Offer(j: nat) returns (taken: bool)
      requires Shape() && j < queueLength
      modifies this`dirty, this`dirtyRect, queue
      ensures Shape() && (Deferred(), taken) == Offered(old(Deferred()), j, Bounds())
    {
      taken := false;
      if !queue[j].flushed {
        var rect := Constrain(queue[j].rect, Bounds());
        queue[j] := PngRect(rect, false);
        if rect.width <= 0 || rect.height <= 0 {
          queue[j] := PngRect(rect, true);
        } else if ShouldCombineWith(rect, false) || !dirty {
          MarkDirty(rect);
          queue[j] := PngRect(rect, true);
          taken := true;
        }
        assert queue[..queueLength] == old(queue[..queueLength])[j := queue[j]];
      }
    }

    /** The inner loop of guac_common_surface_flush: build up a rectangle from entry i on. */
    method BuildUp(i: nat) returns (combined: nat)
      requires Shape() && i < queueLength
      modifies this`dirty, this`dirtyRect, queue
      ensures Shape() && (Deferred(), combined) == Built(old(Deferred()), i, Bounds())
    {
      combined := 0;
      ghost var goal, rest := Built(Deferred(), i, Bounds()), Built(Deferred(), i, Bounds());
      for j := i to queueLength
        invariant Shape() && rest == Built(Deferred(), j, Bounds()) && goal == (rest.0, rest.1 + combined)
      {
        ghost var before := Deferred();
        var taken := Offer(j);
        BuiltStep(before, j, Bounds(), Deferred(), taken);
        rest := Built(Deferred(), j + 1, Bounds());
        if taken {
          combined := combined + 1;
        }
      }
    }

    /** The part of guac_common_surface_flush up to its loop: the last dirty rectangle joins the sorted queue. */
    method Enqueue()
      requires Ready()
      modifies this`dirty, this`queueLength, queue
      ensures Shape() && Deferred() == Sorted(old(Deferred()))
    {
      FlushToQueue();
      QSort();
    }

    /** One entry of the queue: build up a rectangle and queue it again, or send it. */
    method FlushEntry(i: nat, original: nat, ghost image: Image)
      returns (ghost first: seq<Rect>, ghost rest: seq<Rect>)
      requires Shape() && !dirty && SizeKnown() && Depicts(image) && i < queueLength
      modifies this`dirty, this`dirtyRect, this`queueLength, queue, socket
      ensures Shape() && !dirty && SizeKnown() && OtherLayersKept() && i < queueLength
      ensures Repainted(old(socket.clients), socket.clients, layer, Bounds(), image, first)
      ensures Sends(old(Deferred()), i, original, Bounds()) == first + rest
      ensures rest == Sends(Deferred(), i + 1, original, Bounds())
    {
      first := [];
      if !queue[i].flushed {
        var combined := BuildUp(i);
        // Re-add to the queue if there is room and this update was modified or others might be.
        if (combined > 1 || i < original) && queueLength < QUEUE_SIZE {
          FlushToQueue();
        } else {
          first := if dirty then [dirtyRect] else [];
          FlushToPng(image);
        }
      }
      rest := Sends(Deferred(), i + 1, original, Bounds());
    }

    /** guac_common_surface_flush sends the rectangles of its plan. */
    method FlushPlanned(ghost image: Image)
      requires Ready() && Depicts(image)
      modifies this`dirty, this`dirtyRect, this`queueLength, queue, socket
      ensures Ready() && !dirty && queueLength == 0 && OtherLayersKept()
      ensures Repainted(old(socket.clients), socket.clients, layer, Bounds(), image, old(FlushPlan()))
    {
      ghost var plan, before := FlushPlan(), socket.clients;
      Enqueue();
      var original := queueLength;
      var i := 0;
      ghost var sent, rest := [], plan;
      while i < queueLength
        invariant Shape() && !dirty && SizeKnown() && OtherLayersKept() && i <= queueLength
        invariant Repainted(before, socket.clients, layer, Bounds(), image, sent)
        invariant plan == sent + rest && rest == Sends(Deferred(), i, original, Bounds())
        decreases QUEUE_SIZE - i
      {
        ghost var mid, first := socket.clients, [];
        first, rest := FlushEntry(i, original, image);
        RepaintedMore(before, mid, socket.clients, layer, Bounds(), image, sent, first);
        Regrouped(sent, first, rest);
        i, sent := i + 1, sent + first;
      }
      assert rest == [] && plan == sent;
      queueLength := 0;
    }

    /**
     * guac_common_surface_flush: afterwards nothing is pending, and every client agrees wherever it agreed or was
     * owed.
     */
    method Flush()
      requires Ready()
      modifies this`dirty, this`dirtyRect, this`queueLength, queue, socket
      ensures Ready() && !dirty && queueLength == 0 && OtherLayersKept()
      ensures forall px, py :: InBuffer(buffer, px, py) && (old(Fresh(px, py)) || old(Pending(px, py))) ==>
        Fresh(px, py)
      ensures old(Valid()) ==> forall px, py :: InBuffer(buffer, px, py) ==> Fresh(px, py)
    {
      ghost var image := Snapshot(buffer);
      ghost var before, plan := socket.clients, FlushPlan();
      PendingPlanned();
      FlushPlanned(image);
      forall px, py | InBuffer(buffer, px, py) && (old(Fresh(px, py)) || old(Pending(px, py))) ensures Fresh(px, py) {
        RepaintedAt(before, socket.clients, layer, Bounds(), image, plan, px, py);
      }
    }

    /** guac_common_surface_flush_deferred: keeps one entry of the queue free. */
    method FlushDeferred()
      requires Ready()
      modifies this`dirty, this`dirtyRect, this`queueLength, queue, socket
      ensures Ready() && !dirty && OtherLayersKept()
      ensures forall px, py :: InBuffer(buffer, px, py) && (old(Fresh(px, py)) || old(Pending(px, py))) ==>
        Fresh(px, py) || Pending(px, py)
      ensures old(queueLength) < QUEUE_SIZE - 1 ==> socket.clients == old(socket.clients)
      ensures old(queueLength) < QUEUE_SIZE - 1 ==> forall px, py :: old(Pending(px, py)) ==> Pending(px, py)
      ensures queueLength <= old(queueLength) + 1
    {
      if !dirty {
        return;
      }
      if queueLength == QUEUE_SIZE - 1 {
        Flush();
      }
      FlushToQueue();
    }

    // ----- drawing

    /** __guac_common_clip_rect: does nothing unless a clipping rectangle is set. */
    function ClippedTo(rect: Rect): (r: Rect)
      reads this
      ensures r.Empty() || r.Inside(rect)
      ensures clipped && clipRect.Within(width, height) ==> r.Empty() || r.Within(width, height)
    {
      if clipped then Constrain(rect, clipRect) else rect
    }

    /** The end of draw and paint: all that is neither fresh nor pending lies in `rect`, which is deferred. */
    method Defer(rect: Rect)
      requires Ready() && !rect.Empty() && rect.Within(width, height)
      requires forall px, py :: InBuffer(buffer, px, py) && !rect.Has(px, py) ==> Fresh(px, py) || Pending(px, py)
      modifies this`dirty, this`dirtyRect, this`queueLength, queue, socket
      ensures Valid() && OtherLayersKept()
      ensures queueLength <= old(queueLength) + 1 && forall px, py :: rect.Has(px, py) ==> Pending(px, py)
    {
      if !ShouldCombineWith(rect, false) {
        FlushDeferred();
      }
      MarkDirty(rect);
    }

    /** Put an image into the buffer; `out` holds all that is not fresh or pending any more. */
    method PutPixels(x: int, y: int, src: Buffer, rect: Rect, isOpaque: bool) returns (out: Rect)
      requires Valid() && src != buffer
      requires !rect.Empty() && rect.Within(width, height) && rect.Inside(Rect(x, y, src.Length1, src.Length0))
      modifies buffer
      ensures Ready() && (!out.Empty() ==> out.Inside(rect))
      ensures forall px, py :: InBuffer(buffer, px, py) && !out.Has(px, py) ==> Fresh(px, py) || Pending(px, py)
      ensures forall px, py {:trigger buffer[py, px]} :: InBuffer(buffer, px, py) ==>
        buffer[py, px] == if rect.Has(px, py) then PutPixel(src[py - y, px - x], old(buffer[py, px]), isOpaque)
                          else old(buffer[py, px])
      ensures forall px, py :: InBuffer(buffer, px, py) && !out.Has(px, py) ==> buffer[py, px] == old(buffer[py, px])
    {
      var sx, sy;
      ghost var changed;
      sx, sy, out, changed := Put(src, rect.x - x, rect.y - y, buffer, rect, isOpaque);
      forall px, py | InBuffer(buffer, px, py) && !out.Has(px, py) ensures Fresh(px, py) || Pending(px, py) {
        assert buffer[py, px] == old(buffer[py, px]) && (old(Fresh(px, py)) || old(Pending(px, py)));
      }
    }

    /** guac_common_surface_draw */
    method Draw(x: int, y: int, src: Buffer, isOpaque: bool)
      requires Valid() && src != buffer
      requires clipped || Rect(x, y, src.Length1, src.Length0).Empty() ||
        Rect(x, y, src.Length1, src.Length0).Within(width, height)
      modifies this`dirty, this`dirtyRect, this`queueLength, buffer, queue, socket
      ensures Valid() && OtherLayersKept()
      ensures forall px, py {:trigger buffer[py, px]} :: InBuffer(buffer, px, py) ==>
        buffer[py, px] == if ClippedTo(Rect(x, y, src.Length1, src.Length0)).Has(px, py)
                          then PutPixel(src[py - y, px - x], old(buffer[py, px]), isOpaque) else old(buffer[py, px])
      ensures queueLength <= old(queueLength) + 1 && forall px, py ::
        InBuffer(buffer, px, py) && buffer[py, px] != old(buffer[py, px]) ==> Pending(px, py)
    {
      var rect := ClippedTo(Rect(x, y, src.Length1, src.Length0));
      if rect.width <= 0 || rect.height <= 0 {
        return;
      }
      var out := PutPixels(x, y, src, rect, isOpaque);
      if out.width <= 0 || out.height <= 0 {
        return;
      }
      Defer(out);
    }

    /** guac_common_surface_paint */
    method Paint(x: int, y: int, src: Buffer, colour: Colour)
      requires Valid() && src != buffer
      requires clipped || Rect(x, y, src.Length1, src.Length0).Empty() ||
        Rect(x, y, src.Length1, src.Length0).Within(width, height)
      modifies this`dirty, this`dirtyRect, this`queueLength, buffer, queue, socket
      ensures Valid() && OtherLayersKept()
      ensures forall px, py {:trigger buffer[py, px]} :: InBuffer(buffer, px, py) ==>
        buffer[py, px] == if ClippedTo(Rect(x, y, src.Length1, src.Length0)).Has(px, py) &&
          src[py - y, px - x].alpha != 0
                          then Pixel(0xFF, colour) else old(buffer[py, px])
    {
      var rect := ClippedTo(Rect(x, y, src.Length1, src.Length0));
      if rect.width <= 0 || rect.height <= 0 {
        return;
      }
      FillMask(src, rect.x - x, rect.y - y, buffer, rect, Pixel(0xFF, colour));
      Defer(rect);
    }

    /** Defer a filled rectangle if combining, otherwise flush and have the clients fill it. */
    method FillOrDefer(out: Rect, colour: Colour)
      requires Ready() && !out.Empty() && out.Within(width, height)
      requires forall px, py :: InBuffer(buffer, px, py) && !out.Has(px, py) ==> Fresh(px, py) || Pending(px, py)
      requires forall px, py :: out.Has(px, py) ==> buffer[py, px].colour == colour
      modifies this`dirty, this`dirtyRect, this`queueLength, queue, socket
      ensures Valid() && OtherLayersKept()
    {
      if ShouldCombineWith(out, true) {
        MarkDirty(out);
      } else {
        Flush();
        socket.Send(Cfill(layer, out, colour));
      }
    }

    /** guac_common_surface_rect */
    method DrawRect(area: Rect, colour: Colour)
      requires Valid()
      requires clipped || area.Empty() || area.Within(width, height)
      modifies this`dirty, this`dirtyRect, this`queueLength, buffer, queue, socket
      ensures Valid() && OtherLayersKept()
      ensures forall px, py {:trigger buffer[py, px]} :: InBuffer(buffer, px, py) ==>
        buffer[py, px] == if ClippedTo(area).Has(px, py) then Pixel(0xFF, colour) else old(buffer[py, px])
    {
      var rect := ClippedTo(area);
      if rect.width <= 0 || rect.height <= 0 {
        return;
      }
      var out, changed := FillRect(buffer, rect, Pixel(0xFF, colour));
      if out.width <= 0 || out.height <= 0 {
        return;
      }
      FillOrDefer(out, colour);
    }

    /** guac_common_surface_clip */
    method Clip(x: int, y: int, w: int, h: int)
      requires Valid()
      modifies this`clipped, this`clipRect
      ensures Valid() && clipped
      ensures forall px, py :: clipRect.Has(px, py) <==>
        Rect(x, y, w, h).Has(px, py) && (if old(clipped) then old(clipRect) else Bounds()).Has(px, py)
    {
      if !clipped {
        clipRect := Bounds();
        clipped := true;
      }
      clipRect := Constrain(clipRect, Rect(x, y, w, h));
    }

    /** guac_common_surface_reset_clip */
    method ResetClip()
      requires Valid()
      modifies this`clipped
      ensures Valid() && !clipped
    {
      clipped := false;
    }

    /** Have the clients, which agree everywhere, move pixels. */
    method SendMove(sx: int, sy: int, op: TransferFunction, rect: Rect, asCopy: bool)
      requires Shape() && SizeKnown() && rect.Within(width, height)
      requires Rect(sx, sy, rect.width, rect.height).Within(width, height)
      requires asCopy ==> op == SRC
      requires forall px, py :: InBuffer(buffer, px, py) ==> Fresh(px, py)
      modifies socket
      ensures SizeKnown() && OtherLayersKept()
      ensures forall px, py :: InBuffer(buffer, px, py) && !rect.Has(px, py) ==> Fresh(px, py)
      ensures forall px, py {:trigger rect.Has(px, py)} :: rect.Has(px, py) ==>
        Shown(px, py, ApplyColour(op, buffer[py - rect.y + sy, px - rect.x + sx].colour, buffer[py, px].colour))
    {
      socket.Send(if asCopy then Copy(layer, sx, sy, layer, rect) else Client.Transfer(layer, sx, sy, op, layer, rect));
      forall px, py | rect.Has(px, py)
        ensures Shown(px, py, ApplyColour(op, buffer[py - rect.y + sy, px - rect.x + sx].colour, buffer[py, px].colour))
      {
        assert old(Fresh(px, py)) && old(Fresh(px - rect.x + sx, py - rect.y + sy));
      }
    }

    /**
     * Defer the rectangle if combining, otherwise flush and have the clients move pixels; the buffer is not changed
     * yet.
     */
    method MoveOrDefer(sx: int, sy: int, op: TransferFunction, rect: Rect, asCopy: bool)
      requires Valid() && !rect.Empty() && rect.Within(width, height)
      requires Rect(sx, sy, rect.width, rect.height).Within(width, height)
      requires asCopy ==> op == SRC
      modifies this`dirty, this`dirtyRect, this`queueLength, queue, socket
      ensures Ready() && OtherLayersKept()
      ensures forall px, py :: InBuffer(buffer, px, py) && !rect.Has(px, py) ==> Fresh(px, py) || Pending(px, py)
      ensures forall px, py {:trigger rect.Has(px, py)} :: rect.Has(px, py) && !Pending(px, py) ==>
        Shown(px, py, ApplyColour(op, buffer[py - rect.y + sy, px - rect.x + sx].colour, buffer[py, px].colour))
    {
      if ShouldCombineWith(rect, true) {
        MarkDirty(rect);
      } else {
        Flush();
        Flush();
        SendMove(sx, sy, op, rect, asCopy);
      }
    }

    /**
     * guac_common_surface_copy and guac_common_surface_transfer from a surface to itself: draw first, then move
     * pixels.
     */
    method TransferWithin(sx: int, sy: int, op: TransferFunction, rect: Rect, asCopy: bool)
      requires Valid() && !rect.Empty() && rect.Within(width, height)
      requires Rect(sx, sy, rect.width, rect.height).Within(width, height)
      requires asCopy ==> op == SRC
      modifies this`dirty, this`dirtyRect, this`queueLength, buffer, queue, socket
      ensures Valid() && OtherLayersKept()
      ensures forall px, py {:trigger buffer[py, px]} :: InBuffer(buffer, px, py) ==>
        buffer[py, px] == if rect.Has(px, py)
                          then Apply(op, old(buffer[py - rect.y + sy, px - rect.x + sx]), old(buffer[py, px]))
                          else old(buffer[py, px])
    {
      MoveOrDefer(sx, sy, op, rect, asCopy);
      label Drawn:
      var _, _, _, _ := PixelLoops.Transfer(buffer, sx, sy, op, buffer, rect);
      forall px, py | InBuffer(buffer, px, py) && !Pending(px, py)
        ensures Fresh(px, py)
      {
        if rect.Has(px, py) {
          assert buffer[py, px].colour ==
            old@Drawn(ApplyColour(op, buffer[py - rect.y + sy, px - rect.x + sx].colour, buffer[py, px].colour));
        } else {
          assert old@Drawn(Fresh(px, py)) && buffer[py, px] == old@Drawn(buffer[py, px]);
        }
      }
    }

    /** Two surfaces of one socket that share nothing else. */
    ghost predicate Apart(other: Surface)
      reads this, other
    {
      && this != other && socket == other.socket && layer != other.layer
      && buffer != other.buffer && queue != other.queue
    }

    /** Clients keep all layers but those of two surfaces. */
    twostate predicate LayersKept(other: Surface)
      reads socket
    {
      && |socket.clients| == |old(socket.clients)|
      && forall k, l :: 0 <= k < |socket.clients| && l != layer && l != other.layer ==>
        socket.clients[k](l) == old(socket.clients[k])(l)
    }

    /** Flush both surfaces; neither disturbs the layer of the other. */
    method FlushBoth(src: Surface, ghost image: Image)
      requires Ready() && Depicts(image) && src.Valid() && Apart(src)
      modifies this`dirty, this`dirtyRect, this`queueLength, queue
      modifies src`dirty, src`dirtyRect, src`queueLength, src.queue, socket
      ensures Ready() && !dirty && queueLength == 0 && src.Ready() && !src.dirty && src.queueLength == 0
      ensures forall px, py :: InBuffer(src.buffer, px, py) ==> src.Fresh(px, py)
      ensures LayersKept(src)
      ensures Repainted(old(socket.clients), socket.clients, layer, Bounds(), image, old(FlushPlan()))
    {
      FlushPlanned(image);
      assert src.Valid();
      ghost var plan, mid := old(FlushPlan()), socket.clients;
      src.Flush();
      RepaintedStill(old(socket.clients), mid, socket.clients, layer, Bounds(), image, plan);
    }

    /** In an area, the image is that of another surface from (sx, sy) on. */
    ghost predicate Sources(src: Surface, sx: int, sy: int, area: Rect, from: Image)
      reads src, src.buffer
    {
      && src.Shape() && Rect(sx, sy, area.width, area.height).Within(src.width, src.height)
      && forall px, py {:trigger from(px, py)} :: area.Has(px, py) ==>
        from(px, py) == src.buffer[py - area.y + sy, px - area.x + sx]
    }

    lemma SourcesWithin(src: Surface, sx: int, sy: int, area: Rect, sx': int, sy': int, part: Rect, from: Image)
      requires Sources(src, sx, sy, area, from) && part.Inside(area)
      requires sx' - part.x == sx - area.x && sy' - part.y == sy - area.y
      ensures Sources(src, sx', sy', part, from)
    {
      forall px, py | part.Has(px, py) ensures from(px, py) == src.buffer[py - part.y + sy', px - part.x + sx'] {
        assert area.Has(px, py);
      }
    }

    /** Have the clients move pixels from another surface, on which they agree everywhere. */
    method SendFrom(src: Surface, sx: int, sy: int, op: TransferFunction, out: Rect, asCopy: bool, ghost from: Image)
      requires Shape() && SizeKnown() && src.Shape() && src.SizeKnown() && Apart(src) && (asCopy ==> op == SRC)
      requires Rect(sx, sy, out.width, out.height).Within(src.width, src.height)
      requires forall px, py :: InBuffer(src.buffer, px, py) ==> src.Fresh(px, py)
      requires Sources(src, sx, sy, out, from)
      modifies socket
      ensures SizeKnown() && src.SizeKnown() && OtherLayersKept()
      ensures forall px, py :: InBuffer(src.buffer, px, py) ==> src.Fresh(px, py)
      ensures Operated(old(socket.clients), socket.clients, layer, op, from, out)
    {
      ghost var was := socket.clients;
      var i := if asCopy then Copy(src.layer, sx, sy, layer, out)
        else Client.Transfer(src.layer, sx, sy, op, layer, out);
      socket.Send(i);
      forall k, px, py | 0 <= k < |was|
        ensures socket.clients[k](layer).colour(px, py) == Once(was[k], layer, op, from, out, px, py)
      {
        assert socket.clients[k](layer) == Client.Drawn(was[k], i);
        if out.Has(px, py) { assert old(src.Fresh(px - out.x + sx, py - out.y + sy)); }
      }
      forall px, py | InBuffer(src.buffer, px, py) ensures src.Fresh(px, py) {
        assert old(src.Fresh(px, py));
      }
    }

    /** What a flush will not send is shown as it was in `out`, and as it is elsewhere. */
    lemma Unsent(was: Image, now: Image, out: Rect)
      requires Ready() && Depicts(now)
      requires forall px, py :: out.Has(px, py) ==> Shown(px, py, was(px, py).colour) || Pending(px, py)
      requires forall px, py :: InBuffer(buffer, px, py) && !out.Has(px, py) ==> Fresh(px, py) || Pending(px, py)
      ensures UnsentPartly(socket.clients, layer, Bounds(), was, now, out, FlushPlan())
    {
      PendingPlanned();
      forall k, px, py | 0 <= k < |socket.clients| && Bounds().Has(px, py) && !Covers(FlushPlan(), px, py)
        ensures socket.clients[k](layer).colour(px, py) == Partly(was, now, out, FlushPlan(), px, py)
      {
        assert InBuffer(buffer, px, py) && !Pending(px, py);
      }
    }

    /** Flush, and have the clients move what is in the buffer already. */
    method FlushAndMove(
      src: Surface, sx: int, sy: int, op: TransferFunction, out: Rect, asCopy: bool,
      ghost from: Image, ghost was: Image, ghost now: Image
    )
      requires Ready() && src.Valid() && Apart(src) && (asCopy ==> op == SRC)
      requires out.Within(width, height) && Rect(sx, sy, out.width, out.height).Within(src.width, src.height)
      requires Sources(src, sx, sy, out, from)
      requires Depicts(now) && Result(op, from, was, now, out)
      requires forall px, py :: out.Has(px, py) ==> Shown(px, py, was(px, py).colour) || Pending(px, py)
      requires forall px, py :: InBuffer(buffer, px, py) && !out.Has(px, py) ==> Fresh(px, py) || Pending(px, py)
      modifies this`dirty, this`dirtyRect, this`queueLength, queue
      modifies src`dirty, src`dirtyRect, src`queueLength, src.queue, socket
      ensures Ready() && !dirty && queueLength == 0 && src.Valid() && LayersKept(src)
      ensures AllOutcome(socket.clients, layer, Bounds(), op, from, now, out, old(FlushPlan()))
    {
      ghost var plan, before := FlushPlan(), socket.clients;
      Unsent(was, now, out);
      FlushBoth(src, now);
      ghost var mid := socket.clients;
      RepaintedPartly(before, mid, layer, Bounds(), was, now, out, plan);
      SendFrom(src, sx, sy, op, out, asCopy, from);
      OperatedOutcome(mid, socket.clients, layer, Bounds(), op, from, was, now, out, plan);
    }

    /** Move pixels from another surface into the buffer; `out` holds all that changed. */
    method MoveIn(
      src: Surface, sx: int, sy: int, op: TransferFunction, rect: Rect,
      ghost fx: int, ghost fy: int, ghost tx: int, ghost ty: int
    )
      returns (sx': int, sy': int, out: Rect)
      requires fx - tx == sx - rect.x && fy - ty == sy - rect.y
      requires Shape() && src.Shape() && src.buffer != buffer && !rect.Empty() && rect.Within(width, height)
      requires Rect(sx, sy, rect.width, rect.height).Within(src.width, src.height)
      modifies buffer
      ensures !out.Empty() ==> out.Inside(rect) && sx' - out.x == sx - rect.x && sy' - out.y == sy - rect.y
      ensures forall px, py :: InBuffer(buffer, px, py) && !out.Has(px, py) ==> buffer[py, px] == old(buffer[py, px])
      ensures forall px, py {:trigger buffer[py, px]} :: InBuffer(buffer, px, py) ==>
        buffer[py, px] == if rect.Has(px, py)
                          then Apply(op, src.buffer[py - ty + fy, px - tx + fx], old(buffer[py, px]))
                          else old(buffer[py, px])
    {
      ghost var changed;
      sx', sy', out, changed := PixelLoops.Transfer(src.buffer, sx, sy, op, buffer, rect);
    }

    /** The same of a surface in order: clients show the rest, and of `out` what was there, unless it is pending. */
    method MovePixels(
      src: Surface, sx: int, sy: int, op: TransferFunction, rect: Rect, ghost was: Image,
      ghost fx: int, ghost fy: int, ghost tx: int, ghost ty: int
    )
      returns (sx': int, sy': int, out: Rect)
      requires fx - tx == sx - rect.x && fy - ty == sy - rect.y
      requires Valid() && src.Valid() && Apart(src) && !rect.Empty() && rect.Within(width, height) && Holds(buffer, was)
      requires Rect(sx, sy, rect.width, rect.height).Within(src.width, src.height)
      modifies buffer
      ensures !out.Empty() ==> out.Inside(rect) && sx' - out.x == sx - rect.x && sy' - out.y == sy - rect.y
      ensures forall px, py :: InBuffer(buffer, px, py) && !out.Has(px, py) ==> buffer[py, px] == old(buffer[py, px])
      ensures forall px, py {:trigger buffer[py, px]} :: InBuffer(buffer, px, py) ==>
        buffer[py, px] == if rect.Has(px, py)
                          then Apply(op, src.buffer[py - ty + fy, px - tx + fx], old(buffer[py, px]))
                          else old(buffer[py, px])
      ensures forall px, py :: InBuffer(buffer, px, py) ==>
        if out.Has(px, py) then Shown(px, py, was(px, py).colour) || Pending(px, py)
        else Fresh(px, py) || Pending(px, py)
    {
      sx', sy', out := MoveIn(src, sx, sy, op, rect, fx, fy, tx, ty);
      forall px, py | InBuffer(buffer, px, py)
        ensures if out.Has(px, py) then Shown(px, py, was(px, py).colour) || Pending(px, py)
                else Fresh(px, py) || Pending(px, py)
      {
        assert old(Fresh(px, py) || Pending(px, py));
      }
    }

    /** The pixels moved, as images: where they come from, and what is in the buffer now. */
    lemma Pictured(
      src: Surface, sx: int, sy: int, op: TransferFunction, rect: Rect, was: Image, fx: int, fy: int, tx: int, ty: int
    )
      returns (from: Image, now: Image)
      requires Shape() && src.Shape() && rect.Within(width, height)
      requires fx - tx == sx - rect.x && fy - ty == sy - rect.y
      requires Rect(sx, sy, rect.width, rect.height).Within(src.width, src.height)
      requires forall px, py {:trigger buffer[py, px]} :: rect.Has(px, py) ==>
        buffer[py, px] == Apply(op, src.buffer[py - ty + fy, px - tx + fx], was(px, py))
      ensures Depicts(now) && Result(op, from, was, now, rect)
      ensures Sources(src, sx, sy, rect, from)
    {
      from := SnapshotAt(src.buffer, sx, sy, rect);
      now := Snapshot(buffer);
      forall px, py | rect.Has(px, py)
        ensures now(px, py).colour == ApplyColour(op, from(px, py).colour, was(px, py).colour)
      {
        assert InBuffer(buffer, px, py) && now(px, py) == buffer[py, px];
      }
    }

    /** Operating again on pixels of `out` that a flush sends, from a source at this offset, changes none of them. */
    ghost predicate Repeatable(
      src: Surface, fx: int, fy: int, tx: int, ty: int, op: TransferFunction, out: Rect, plan: seq<Rect>
    )
      reads this, buffer, src, src.buffer
    {
      forall px, py {:trigger out.Has(px, py)} :: out.Has(px, py) && Covers(plan, px, py) ==>
        SameAgain(src, fx, fy, tx, ty, op, px, py)
    }

    ghost predicate SameAgain(src: Surface, fx: int, fy: int, tx: int, ty: int, op: TransferFunction, px: int, py: int)
      reads this, buffer, src, src.buffer
    {
      InBuffer(buffer, px, py) && InBuffer(src.buffer, px - tx + fx, py - ty + fy) ==>
        ApplyColour(op, src.buffer[py - ty + fy, px - tx + fx].colour, buffer[py, px].colour) == buffer[py, px].colour
    }

    /**
     * guac_common_surface_copy and guac_common_surface_transfer from another surface: move pixels first, then draw.
     * `out` is the area that changed. The result is deferred if it is combined with the dirty rectangle. Otherwise
     * clients operate on the pixels of `out` after a flush, and agree if and only if that changes nothing in those the
     * flush has sent.
     */
    method TransferFrom(
      src: Surface, sx: int, sy: int, op: TransferFunction, rect: Rect, asCopy: bool,
      ghost fx: int, ghost fy: int, ghost tx: int, ghost ty: int
    )
      returns (deferred: bool, out: Rect)
      requires fx - tx == sx - rect.x && fy - ty == sy - rect.y
      requires Valid() && src.Valid() && Apart(src) && (asCopy ==> op == SRC) && !rect.Empty() &&
        rect.Within(width, height)
      requires Rect(sx, sy, rect.width, rect.height).Within(src.width, src.height)
      modifies this`dirty, this`dirtyRect, this`queueLength, buffer, queue
      modifies src`dirty, src`dirtyRect, src`queueLength, src.queue, socket
      ensures Ready() && src.Valid() && LayersKept(src)
      ensures forall px, py {:trigger buffer[py, px]} :: InBuffer(buffer, px, py) ==>
        buffer[py, px] == if rect.Has(px, py)
                          then Apply(op, old(src.buffer[py - ty + fy, px - tx + fx]), old(buffer[py, px]))
                          else old(buffer[py, px])
      ensures forall px, py :: InBuffer(buffer, px, py) && buffer[py, px] != old(buffer[py, px]) ==> out.Has(px, py)
      ensures (out.Empty() || out.Inside(rect)) && (deferred <==> out.Empty() || old(ShouldCombineWith(out, true)))
      ensures Valid() <==>
        deferred || |socket.clients| == 0 || Repeatable(src, fx, fy, tx, ty, op, out, old(FlushPlan()))
      ensures Idempotent(op) || (!old(dirty) && old(queueLength) == 0) ==> Valid()
    {
      ghost var was := Snapshot(buffer);
      PendingPlanned();
      var sx', sy';
      sx', sy', out := MovePixels(src, sx, sy, op, rect, was, fx, fy, tx, ty);
      deferred := true;
      if out.width > 0 && out.height > 0 {
        deferred := DrawMoved(src, sx', sy', op, out, asCopy, rect, sx, sy, fx, fy, tx, ty, was);
      }
    }

    /** Defer what was moved if combining, otherwise flush and have the clients move it. */
    method DrawMoved(
      src: Surface, sx': int, sy': int, op: TransferFunction, out: Rect, asCopy: bool, ghost rect: Rect,
      ghost sx: int, ghost sy: int, ghost fx: int, ghost fy: int, ghost tx: int, ghost ty: int, ghost was: Image
    )
      returns (deferred: bool)
      requires Ready() && src.Valid() && Apart(src) && (asCopy ==> op == SRC) && !out.Empty()
      requires rect.Within(width, height) && Rect(sx, sy, rect.width, rect.height).Within(src.width, src.height)
      requires out.Inside(rect) && sx' - out.x == sx - rect.x == fx - tx && sy' - out.y == sy - rect.y == fy - ty
      requires forall px, py {:trigger buffer[py, px]} :: rect.Has(px, py) ==>
        buffer[py, px] == Apply(op, src.buffer[py - ty + fy, px - tx + fx], was(px, py))
      requires forall px, py :: out.Has(px, py) ==> Shown(px, py, was(px, py).colour) || Pending(px, py)
      requires forall px, py :: InBuffer(buffer, px, py) && !out.Has(px, py) ==> Fresh(px, py) || Pending(px, py)
      modifies this`dirty, this`dirtyRect, this`queueLength, queue
      modifies src`dirty, src`dirtyRect, src`queueLength, src.queue, socket
      ensures Ready() && src.Valid() && LayersKept(src) && deferred == old(ShouldCombineWith(out, true))
      ensures Valid() <==>
        deferred || |socket.clients| == 0 || Repeatable(src, fx, fy, tx, ty, op, out, old(FlushPlan()))
      ensures Idempotent(op) || old(FlushPlan()) == [] ==> Valid()
    {
      assert forall px, py {:trigger out.Has(px, py)} :: out.Has(px, py) ==> rect.Has(px, py);
      deferred := ShouldCombineWith(out, true);
      if deferred {
        MarkDirty(out);
      } else {
        MoveNow(src, sx', sy', op, out, asCopy, rect, sx, sy, fx, fy, tx, ty, was);
      }
    }

    /** Flush, and have the clients move what was moved. */
    method MoveNow(
      src: Surface, sx': int, sy': int, op: TransferFunction, out: Rect, asCopy: bool, ghost rect: Rect,
      ghost sx: int, ghost sy: int, ghost fx: int, ghost fy: int, ghost tx: int, ghost ty: int, ghost was: Image
    )
      requires Ready() && src.Valid() && Apart(src) && (asCopy ==> op == SRC) && !out.Empty()
      requires rect.Within(width, height) && Rect(sx, sy, rect.width, rect.height).Within(src.width, src.height)
      requires out.Inside(rect) && sx' - out.x == sx - rect.x == fx - tx && sy' - out.y == sy - rect.y == fy - ty
      requires forall px, py {:trigger buffer[py, px]} :: rect.Has(px, py) ==>
        buffer[py, px] == Apply(op, src.buffer[py - ty + fy, px - tx + fx], was(px, py))
      requires forall px, py :: out.Has(px, py) ==> Shown(px, py, was(px, py).colour) || Pending(px, py)
      requires forall px, py :: InBuffer(buffer, px, py) && !out.Has(px, py) ==> Fresh(px, py) || Pending(px, py)
      modifies this`dirty, this`dirtyRect, this`queueLength, queue
      modifies src`dirty, src`dirtyRect, src`queueLength, src.queue, socket
      ensures Ready() && src.Valid() && LayersKept(src)
      ensures Valid() <==> |socket.clients| == 0 || Repeatable(src, fx, fy, tx, ty, op, out, old(FlushPlan()))
      ensures Idempotent(op) || old(FlushPlan()) == [] ==> Valid()
    {
      assert forall px, py {:trigger out.Has(px, py)} :: out.Has(px, py) ==> rect.Has(px, py);
      ghost var from, now := Pictured(src, sx, sy, op, rect, was, fx, fy, tx, ty);
      ghost var plan := FlushPlan();
      SourcesWithin(src, sx, sy, rect, sx', sy', out, from);
      FlushAndMove(src, sx', sy', op, out, asCopy, from, was, now);
      Agreement(src, sx, sy, fx, fy, tx, ty, op, rect, out, plan, from, was, now);
    }

    lemma AgreementNow(op: TransferFunction, out: Rect, plan: seq<Rect>, from: Image, was: Image, now: Image)
      requires Ready() && Depicts(now) && AllOutcome(socket.clients, layer, Bounds(), op, from, now, out, plan)
      requires Result(op, from, was, now, out) && (Idempotent(op) || plan == [])
      ensures Valid()
    {
      OutcomeIsNow(op, from, was, now, out, plan);
      forall px, py | InBuffer(buffer, px, py) ensures Fresh(px, py) {
        assert Bounds().Has(px, py);
      }
    }

    lemma AgreementRepeats(
      src: Surface, sx: int, sy: int, fx: int, fy: int, tx: int, ty: int, op: TransferFunction, rect: Rect, out: Rect,
      plan: seq<Rect>, from: Image, now: Image
    )
      requires Ready() && src.Shape() && rect.Within(width, height) && Depicts(now)
      requires fx - tx == sx - rect.x && fy - ty == sy - rect.y
      requires Rect(sx, sy, rect.width, rect.height).Within(src.width, src.height) && (out.Empty() || out.Inside(rect))
      requires Sources(src, sx, sy, rect, from)
      requires AllOutcome(socket.clients, layer, Bounds(), op, from, now, out, plan)
      requires Repeatable(src, fx, fy, tx, ty, op, out, plan)
      ensures Valid()
    {
      forall px, py | InBuffer(buffer, px, py) ensures Fresh(px, py) {
        assert Bounds().Has(px, py);
        if out.Has(px, py) && Covers(plan, px, py) {
          assert rect.Has(px, py) && SameAgain(src, fx, fy, tx, ty, op, px, py);
          assert from(px, py) == src.buffer[py - rect.y + sy, px - rect.x + sx];
        }
      }
    }

    lemma AgreementFails(
      src: Surface, sx: int, sy: int, fx: int, fy: int, tx: int, ty: int, op: TransferFunction, rect: Rect, out: Rect,
      plan: seq<Rect>, from: Image, now: Image
    )
      requires Valid() && !dirty && queueLength == 0 && src.Shape() && rect.Within(width, height) && Depicts(now)
      requires fx - tx == sx - rect.x && fy - ty == sy - rect.y
      requires Rect(sx, sy, rect.width, rect.height).Within(src.width, src.height) && (out.Empty() || out.Inside(rect))
      requires Sources(src, sx, sy, rect, from)
      requires AllOutcome(socket.clients, layer, Bounds(), op, from, now, out, plan) && |socket.clients| > 0
      ensures Repeatable(src, fx, fy, tx, ty, op, out, plan)
    {
      forall px, py | out.Has(px, py) && Covers(plan, px, py)
        ensures SameAgain(src, fx, fy, tx, ty, op, px, py)
      {
        assert Bounds().Has(px, py) && rect.Has(px, py) && !Pending(px, py) && Fresh(px, py);
        assert socket.clients[0](layer).colour(px, py) == Outcome(op, from, now, out, plan, px, py);
        assert from(px, py) == src.buffer[py - rect.y + sy, px - rect.x + sx];
      }
    }

    /** With nothing pending, the surface is in order exactly when the outcome is what is in the buffer. */
    lemma Agreement(
      src: Surface, sx: int, sy: int, fx: int, fy: int, tx: int, ty: int, op: TransferFunction, rect: Rect, out: Rect,
      plan: seq<Rect>, from: Image, was: Image, now: Image
    )
      requires Ready() && !dirty && queueLength == 0 && src.Shape() && rect.Within(width, height) && Depicts(now)
      requires fx - tx == sx - rect.x && fy - ty == sy - rect.y
      requires Rect(sx, sy, rect.width, rect.height).Within(src.width, src.height) && (out.Empty() || out.Inside(rect))
      requires Sources(src, sx, sy, rect, from)
      requires AllOutcome(socket.clients, layer, Bounds(), op, from, now, out, plan) && Result(op, from, was, now, out)
      ensures Valid() <==> |socket.clients| == 0 || Repeatable(src, fx, fy, tx, ty, op, out, plan)
      ensures Idempotent(op) || plan == [] ==> Valid()
    {
      if Valid() && |socket.clients| > 0 {
        AgreementFails(src, sx, sy, fx, fy, tx, ty, op, rect, out, plan, from, now);
      }
      if Repeatable(src, fx, fy, tx, ty, op, out, plan) {
        AgreementRepeats(src, sx, sy, fx, fy, tx, ty, op, rect, out, plan, from, now);
      }
      if Idempotent(op) || plan == [] {
        AgreementNow(op, out, plan, from, was, now);
      }
    }

    /** guac_common_surface_copy; source and destination may be one surface, and the areas may overlap in it. */
    method CopyArea(src: Surface, sx: int, sy: int, w: int, h: int, dx: int, dy: int)
      requires Valid() && src.Valid() && (src == this || Apart(src)) && MayMove(src, sx, sy, w, h, dx, dy)
      modifies this`dirty, this`dirtyRect, this`queueLength, buffer, queue
      modifies src`dirty, src`dirtyRect, src`queueLength, src.queue, socket
      ensures Valid() && src.Valid() && LayersKept(src)
      ensures forall px, py {:trigger buffer[py, px]} :: InBuffer(buffer, px, py) ==>
        buffer[py, px] == if ClippedTo(Rect(dx, dy, w, h)).Has(px, py) then old(src.buffer[py - dy + sy, px - dx + sx])
                          else old(buffer[py, px])
    {
      var rect := ClippedTo(Rect(dx, dy, w, h));
      if rect.width <= 0 || rect.height <= 0 {
        return;
      }
      if src != this {
        var _, _ := TransferFrom(src, rect.x - dx + sx, rect.y - dy + sy, SRC, rect, true, sx, sy, dx, dy);
      } else {
        TransferWithin(rect.x - dx + sx, rect.y - dy + sy, SRC, rect, true);
      }
    }

    /** The areas of a copy or transfer lie in the surfaces once the destination is clipped. */
    predicate MayMove(src: Surface, sx: int, sy: int, w: int, h: int, dx: int, dy: int)
      reads this, src
    {
      var r := ClippedTo(Rect(dx, dy, w, h));
      || r.Empty()
      || (r.Within(width, height) &&
          Rect(r.x - dx + sx, r.y - dy + sy, r.width, r.height).Within(src.width, src.height))
    }

    /** guac_common_surface_transfer between two surfaces, once the destination is clipped. */
    method TransferBetween(src: Surface, fx: int, fy: int, tx: int, ty: int, op: TransferFunction, rect: Rect)
      returns (ghost deferred: bool, ghost out: Rect)
      requires Valid() && src.Valid() && Apart(src)
      requires rect.Empty() || (rect.Within(width, height) &&
        Rect(rect.x - tx + fx, rect.y - ty + fy, rect.width, rect.height).Within(src.width, src.height))
      modifies this`dirty, this`dirtyRect, this`queueLength, buffer, queue
      modifies src`dirty, src`dirtyRect, src`queueLength, src.queue, socket
      ensures Ready() && LayersKept(src) && src.Valid()
      ensures Idempotent(op) || (!old(dirty) && old(queueLength) == 0) ==> Valid()
      ensures forall px, py {:trigger buffer[py, px]} :: InBuffer(buffer, px, py) ==>
        buffer[py, px] == if rect.Has(px, py)
                          then Apply(op, old(src.buffer[py - ty + fy, px - tx + fx]), old(buffer[py, px]))
                          else old(buffer[py, px])
      ensures forall px, py :: InBuffer(buffer, px, py) && buffer[py, px] != old(buffer[py, px]) ==> out.Has(px, py)
      ensures deferred <==> out.Empty() || old(ShouldCombineWith(out, true))
      ensures Valid() <==>
        deferred || |socket.clients| == 0 || Repeatable(src, fx, fy, tx, ty, op, out, old(FlushPlan()))
      ensures !deferred && |socket.clients| > 0 && Valid() ==> forall px, py {:trigger out.Has(px, py)} ::
        out.Has(px, py) && old(Pending(px, py)) ==> SameAgain(src, fx, fy, tx, ty, op, px, py)
    {
      if rect.width <= 0 || rect.height <= 0 {
        return true, rect;
      }
      PendingPlanned();
      ghost var plan := FlushPlan();
      deferred, out := TransferFrom(src, rect.x - tx + fx, rect.y - ty + fy, op, rect, false, fx, fy, tx, ty);
      forall px, py | out.Has(px, py) && old(Pending(px, py)) && !SameAgain(src, fx, fy, tx, ty, op, px, py)
        ensures !Repeatable(src, fx, fy, tx, ty, op, out, plan)
      {
        assert old(InBuffer(buffer, px, py)) && Covers(plan, px, py);
      }
    }

    /** The same, as one pixel of the area sees it. */
    method TransferSeen(
      src: Surface, fx: int, fy: int, tx: int, ty: int, op: TransferFunction, rect: Rect, ghost px: int, ghost py: int
    )
      returns (ghost deferred: bool, ghost out: Rect)
      requires Valid() && src.Valid() && Apart(src) && rect.Has(px, py) && rect.Within(width, height)
      requires Rect(rect.x - tx + fx, rect.y - ty + fy, rect.width, rect.height).Within(src.width, src.height)
      modifies this`dirty, this`dirtyRect, this`queueLength, buffer, queue
      modifies src`dirty, src`dirtyRect, src`queueLength, src.queue, socket
      ensures Ready() && |socket.clients| == |old(socket.clients)|
      ensures deferred <==> out.Empty() || old(ShouldCombineWith(out, true))
      ensures buffer[py, px] == Apply(op, src.buffer[py - ty + fy, px - tx + fx], old(buffer[py, px]))
      ensures buffer[py, px] != old(buffer[py, px]) ==> out.Has(px, py)
      ensures !deferred && |socket.clients| > 0 && out.Has(px, py) && old(Pending(px, py)) ==>
        Valid() ==> SameAgain(src, fx, fy, tx, ty, op, px, py)
    {
      deferred, out := TransferBetween(src, fx, fy, tx, ty, op, rect);
    }

    /** guac_common_surface_transfer, once the destination is clipped. */
    method TransferClipped(src: Surface, fx: int, fy: int, tx: int, ty: int, op: TransferFunction, rect: Rect)
      returns (ghost deferred: bool, ghost out: Rect)
      requires Valid() && src.Valid() && (src == this || Apart(src))
      requires rect.Empty() || (rect.Within(width, height) &&
        Rect(rect.x - tx + fx, rect.y - ty + fy, rect.width, rect.height).Within(src.width, src.height))
      modifies this`dirty, this`dirtyRect, this`queueLength, buffer, queue
      modifies src`dirty, src`dirtyRect, src`queueLength, src.queue, socket
      ensures Ready() && LayersKept(src) && (src != this ==> src.Valid())
      ensures src == this || Idempotent(op) || (!old(dirty) && old(queueLength) == 0) ==> Valid()
      ensures forall px, py {:trigger buffer[py, px]} :: InBuffer(buffer, px, py) ==>
        buffer[py, px] == if rect.Has(px, py)
                          then Apply(op, old(src.buffer[py - ty + fy, px - tx + fx]), old(buffer[py, px]))
                          else old(buffer[py, px])
      ensures src != this ==> forall px, py ::
        InBuffer(buffer, px, py) && buffer[py, px] != old(buffer[py, px]) ==> out.Has(px, py)
      ensures src != this ==> (deferred <==> out.Empty() || old(ShouldCombineWith(out, true)))
      ensures src != this ==>
        (Valid() <==> deferred || |socket.clients| == 0 || Repeatable(src, fx, fy, tx, ty, op, out, old(FlushPlan())))
    {
      deferred, out := true, rect;
      if src != this {
        deferred, out := TransferBetween(src, fx, fy, tx, ty, op, rect);
      } else if rect.width > 0 && rect.height > 0 {
        TransferWithin(rect.x - tx + fx, rect.y - ty + fy, op, rect, false);
      }
    }

    /**
     * guac_common_surface_transfer. Inside one surface clients agree afterwards. Between two they agree if and only if
     * the update is deferred, or operating again changes none of the pixels that a flush sends in between.
     */
    method TransferArea(src: Surface, sx: int, sy: int, w: int, h: int, op: TransferFunction, dx: int, dy: int)
      returns (ghost deferred: bool, ghost out: Rect)
      requires Valid() && src.Valid() && (src == this || Apart(src)) && MayMove(src, sx, sy, w, h, dx, dy)
      modifies this`dirty, this`dirtyRect, this`queueLength, buffer, queue
      modifies src`dirty, src`dirtyRect, src`queueLength, src.queue, socket
      ensures Ready() && LayersKept(src) && (src != this ==> src.Valid())
      ensures src == this || Idempotent(op) || (!old(dirty) && old(queueLength) == 0) ==> Valid()
      ensures forall px, py {:trigger buffer[py, px]} :: InBuffer(buffer, px, py) ==>
        buffer[py, px] == if old(ClippedTo(Rect(dx, dy, w, h))).Has(px, py)
                          then Apply(op, old(src.buffer[py - dy + sy, px - dx + sx]), old(buffer[py, px]))
                          else old(buffer[py, px])
      ensures src != this ==> forall px, py ::
        InBuffer(buffer, px, py) && buffer[py, px] != old(buffer[py, px]) ==> out.Has(px, py)
      ensures src != this ==> (deferred <==> out.Empty() || old(ShouldCombineWith(out, true)))
      ensures src != this ==>
        (Valid() <==> deferred || |socket.clients| == 0 || Repeatable(src, sx, sy, dx, dy, op, out, old(FlushPlan())))
    {
      deferred, out := TransferClipped(src, sx, sy, dx, dy, op, ClippedTo(Rect(dx, dy, w, h)));
    }

    /** Copy what fits of the old buffer, made opaque, to the top left corner of the new one. */
    static method CopyOverlap(oldBuffer: Buffer, b: Buffer)
      requires oldBuffer != b
      modifies b
      ensures forall px, py {:trigger b[py, px]} :: InBuffer(b, px, py) ==>
        b[py, px] == if InBuffer(oldBuffer, px, py) then Opaque(oldBuffer[py, px]) else old(b[py, px])
    {
      var overlap := Constrain(Rect(0, 0, oldBuffer.Length1, oldBuffer.Length0), Rect(0, 0, b.Length1, b.Length0));
      assert overlap.x == 0 && overlap.y == 0;
      if overlap.width > 0 && overlap.height > 0 {
        var _, _, _, _ := Put(oldBuffer, 0, 0, b, overlap, true);
      }
    }

    /** The new buffer of a resized surface. */
    static method Reallocate(oldBuffer: Buffer, w: nat, h: nat) returns (b: Buffer)
      ensures fresh(b) && b.Length0 == h && b.Length1 == w
      ensures forall px, py {:trigger b[py, px]} :: InBuffer(b, px, py) ==>
        b[py, px] == if InBuffer(oldBuffer, px, py) then Opaque(oldBuffer[py, px]) else ZERO
    {
      b := new Pixel[h, w]((_, _) => ZERO);
      CopyOverlap(oldBuffer, b);
    }

    /** Tell the clients, which know the former size, the present one. */
    method SendSize(ghost formerWidth: int, ghost formerHeight: int)
      requires forall k :: 0 <= k < |socket.clients| ==>
        socket.clients[k](layer).width == formerWidth && socket.clients[k](layer).height == formerHeight
      modifies socket
      ensures SizeKnown() && OtherLayersKept()
      ensures forall px, py, c :: 0 <= px < formerWidth && 0 <= py < formerHeight && old(Shown(px, py, c)) ==>
        Shown(px, py, c)
      ensures forall px, py :: 0 <= px && 0 <= py && !(px < formerWidth && py < formerHeight) ==>
        Shown(px, py, BLACK_COLOUR)
    {
      socket.Send(Size(layer, width, height));
    }

    /** The clipping and the dirty rectangle are constrained to the new bounds. */
    method ConstrainRects()
      requires queueLength <= queue.Length
      modifies this`clipRect, this`dirty, this`dirtyRect
      ensures clipRect == Constrain(old(clipRect), Bounds())
      ensures dirty ==> !dirtyRect.Empty() && dirtyRect.Inside(Bounds())
      ensures forall px, py :: Bounds().Has(px, py) && old(Pending(px, py)) ==> Pending(px, py)
    {
      clipRect := Constrain(clipRect, Bounds());
      if dirty {
        dirtyRect := Constrain(dirtyRect, Bounds());
        if dirtyRect.width <= 0 || dirtyRect.height <= 0 {
          dirty := false;
        }
      }
    }

    /** guac_common_surface_resize */
    method Resize(w: nat, h: nat)
      requires Valid()
      modifies this, socket
      ensures Valid() && OtherLayersKept() && fresh(buffer)
      ensures width == w && height == h
      ensures forall px, py :: InBuffer(buffer, px, py) ==>
        buffer[py, px] == if InBuffer(old(buffer), px, py) then Opaque(old(buffer[py, px])) else ZERO
    {
      var b := Reallocate(buffer, w, h);
      width, height, buffer := w, h, b;
      ConstrainRects();
      SendSize(old(width), old(height));
      forall px, py | InBuffer(buffer, px, py) && !Pending(px, py) ensures Fresh(px, py) {
        if InBuffer(old(buffer), px, py) {
          assert old(!Pending(px, py)) && old(Fresh(px, py));
          assert Shown(px, py, old(buffer[py, px]).colour);
        }
      }
    }

    /** guac_common_surface_dup: what a late joiner is sent makes it agree everywhere, whatever it showed before. */
    method Dup(ghost joiner: Display) returns (list: seq<Instruction>)
      requires Valid()
      ensures forall px, py :: InBuffer(buffer, px, py) ==>
        ExecuteAll(joiner, list)(layer).colour(px, py) == buffer[py, px].colour
      ensures ExecuteAll(joiner, list)(layer).width == width && ExecuteAll(joiner, list)(layer).height == height
      ensures forall l :: l != layer ==> ExecuteAll(joiner, list)(l) == joiner(l)
    {
      var rows := Encode(Bounds());
      var first, second := Size(layer, width, height), Png(layer, Bounds(), rows);
      list := [first, second];
      ExecuteTwo(joiner, first, second);
      ghost var resized := Execute(joiner, first);
      assert resized(layer) == Drawn(joiner, first);
      assert Execute(resized, second)(layer) == Drawn(resized, second);
    }

    /** The areas a command may touch lie in the surface, which the code leaves to its callers while no clip is set. */
    predicate Allowed(c: Command)
      reads this
    {
      match c
      case Drawing(x, y, src, _) =>
        src != buffer && (clipped || Rect(x, y, src.Length1, src.Length0).Empty() ||
          Rect(x, y, src.Length1, src.Length0).Within(width, height))
      case Painting(x, y, src, _) =>
        src != buffer && (clipped || Rect(x, y, src.Length1, src.Length0).Empty() ||
          Rect(x, y, src.Length1, src.Length0).Within(width, height))
      case Filling(area, _) => clipped || area.Empty() || area.Within(width, height)
      case Copying(sx, sy, w, h, dx, dy) => MayMove(this, sx, sy, w, h, dx, dy)
      case Transferring(sx, sy, w, h, _, dx, dy) => MayMove(this, sx, sy, w, h, dx, dy)
      case _ => true
    }

    method Do(c: Command)
      requires Valid() && Allowed(c)
      modifies this, buffer, queue, socket
      ensures Valid() && (buffer == old(buffer) || fresh(buffer)) && OtherLayersKept()
    {
      match c
      case Drawing(x, y, src, isOpaque) => Draw(x, y, src, isOpaque);
      case Painting(x, y, src, colour) => Paint(x, y, src, colour);
      case Filling(area, colour) => DrawRect(area, colour);
      case Copying(sx, sy, w, h, dx, dy) => CopyArea(this, sx, sy, w, h, dx, dy);
      case Transferring(sx, sy, w, h, op, dx, dy) => var _, _ := TransferArea(this, sx, sy, w, h, op, dx, dy);
      case Resizing(w, h) => Resize(w, h);
      case Clipping(x, y, w, h) => Clip(x, y, w, h);
      case Unclipping => ResetClip();
      case Flushing => Flush();
    }
  }

  const WHITE_PIXEL := Pixel(0xFF, Colour(0xFF, 0xFF, 0xFF))

  lemma WhiteTwice(p: Pixel)
    requires p == WHITE_PIXEL
    ensures Apply(XOR, p, p).colour == BLACK_COLOUR != p.colour && ApplyColour(XOR, p.colour, BLACK_COLOUR) == p.colour
  {}

  /** A one-pixel surface on a layer, painted white. */
  method WhitePixel(socket: Socket, layer: nat) returns (s: Surface)
    requires forall k, px, py :: 0 <= k < |socket.clients| ==> socket.clients[k](layer).colour(px, py) == BLACK_COLOUR
    modifies socket
    ensures fresh(s) && fresh(s.buffer) && fresh(s.queue) && s.Valid() && s.socket == socket && s.layer == layer
    ensures s.width == 1 && s.height == 1 && s.buffer[0, 0] == WHITE_PIXEL && !s.clipped
    ensures s.queueLength <= 1 && s.Pending(0, 0)
    ensures |socket.clients| == |old(socket.clients)|
    ensures forall k, l :: 0 <= k < |socket.clients| && l != layer ==> socket.clients[k](l) == old(socket.clients[k])(l)
  {
    s := new Surface(socket, layer, 1, 1);
    var image := new Pixel[1, 1]((_, _) => WHITE_PIXEL);
    s.Draw(0, 0, image, true);
  }

  /** Two such surfaces, one of them with its pixel in the queue. */
  method WhitePixels(socket: Socket) returns (s: Surface, src: Surface)
    requires forall k, l, px, py :: 0 <= k < |socket.clients| ==> socket.clients[k](l).colour(px, py) == BLACK_COLOUR
    modifies socket
    ensures fresh(s) && fresh(s.buffer) && fresh(s.queue) && fresh(src) && fresh(src.queue) && s.Apart(src)
    ensures s.Valid() && src.Valid() && s.socket == socket && |socket.clients| == |old(socket.clients)|
    ensures s.width == s.height == 1 && s.buffer[0, 0] == WHITE_PIXEL && !s.clipped && !s.dirty && s.Pending(0, 0)
    ensures src.width == src.height == 1 && src.buffer[0, 0] == WHITE_PIXEL
  {
    src := WhitePixel(socket, 1);
    s := WhitePixel(socket, 0);
    s.FlushDeferred();
  }

  lemma Differs(
    s: Surface, src: Surface, fx: int, fy: int, tx: int, ty: int, op: TransferFunction, px: int, py: int,
    from: Pixel, now: Pixel
  )
    requires InBuffer(s.buffer, px, py) && InBuffer(src.buffer, px - tx + fx, py - ty + fy)
    requires s.buffer[py, px] == now && src.buffer[py - ty + fy, px - tx + fx] == from
    requires ApplyColour(op, from.colour, now.colour) != now.colour
    ensures !s.SameAgain(src, fx, fy, tx, ty, op, px, py)
  {}

  /** An operation that, repeated, changes a pixel which is in the queue: clients disagree afterwards. */
  method OperateTwice(
    s: Surface, src: Surface, fx: int, fy: int, op: TransferFunction, rect: Rect, ghost px: int, ghost py: int,
    ghost from: Pixel, ghost now: Pixel
  )
    requires s.Valid() && src.Valid() && s.Apart(src) && |s.socket.clients| > 0 && !s.dirty && s.Pending(px, py)
    requires rect.Has(px, py) && rect.Within(s.width, s.height)
    requires Rect(fx, fy, rect.width, rect.height).Within(src.width, src.height)
    requires from == src.buffer[py - rect.y + fy, px - rect.x + fx] && now == Apply(op, from, s.buffer[py, px])
    requires ApplyColour(op, from.colour, now.colour) != now.colour
    modifies s, s.buffer, s.queue, src, src.queue, s.socket
    ensures s.Ready() && !s.Valid() && InBuffer(s.buffer, px, py) && s.buffer[py, px] == now
  {
    ghost var deferred, out := s.TransferSeen(src, fx, fy, rect.x, rect.y, op, rect, px, py);
    Differs(s, src, fx, fy, rect.x, rect.y, op, px, py, from, now);
  }

  /** A deferred white pixel, and XOR with another one: with any client at all there is disagreement. */
  method ExclusiveOr(socket: Socket) returns (s: Surface)
    requires |socket.clients| > 0
    requires forall k, l, px, py :: 0 <= k < |socket.clients| ==> socket.clients[k](l).colour(px, py) == BLACK_COLOUR
    modifies socket
    ensures s.Ready() && !s.Valid() && s.buffer[0, 0].colour == BLACK_COLOUR
  {
    var src;
    s, src := WhitePixels(socket);
    WhiteTwice(src.buffer[0, 0]);
    ghost var white := src.buffer[0, 0];
    OperateTwice(s, src, 0, 0, XOR, Rect(0, 0, 1, 1), 0, 0, white, Apply(XOR, white, white));
  }
}
