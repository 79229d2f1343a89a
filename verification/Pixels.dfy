/** Pixels of guac_surface.cpp and the box of changed pixels its loops report. */
module Pixels {
  import opened Numbers
  import opened Geometry

  /** The low 24 bits of a pixel: red, green, blue. */
  datatype Colour = Colour(red: bv8, green: bv8, blue: bv8)

  /** A 32-bit pixel: the high byte, which RGB24 ignores, and the colour. */
  datatype Pixel = Pixel(alpha: bv8, colour: Colour)

  /** A picture by column and row. */
  type Image = (int, int) -> Pixel

  /** What calloc leaves in a buffer. */
  const ZERO := Pixel(0, BLACK_COLOUR)

  const BLACK_COLOUR := Colour(0, 0, 0)

  /** `p | 0xFF000000`. */
  function Opaque(p: Pixel): Pixel { p.(alpha := 0xFF) }

  datatype TransferFunction =
    | BLACK | WHITE | SRC | DEST | NSRC | NDEST | AND | NAND | OR | NOR | XOR | XNOR
    | NSRC_AND | NSRC_NAND | NSRC_OR | NSRC_NOR

  /** The transfer functions are bitwise, so they act on each byte; BLACK is 0x00 in every colour byte. */
  function ByteOperation(op: TransferFunction): (bv8, bv8) -> bv8 {
    match op
    case BLACK => (s, d) => 0x00
    case WHITE => (s, d) => 0xFF
    case SRC => (s, d) => s
    case DEST => (s, d) => d
    case NSRC => (s, d) => !s
    case NDEST => (s, d) => !d
    case AND => (s, d) => d & s
    case NAND => (s, d) => !(d & s)
    case OR => (s, d) => d | s
    case NOR => (s, d) => !(d | s)
    case XOR => (s, d) => d ^ s
    case XNOR => (s, d) => !(d ^ s)
    case NSRC_AND => (s, d) => d & !s
    case NSRC_NAND => (s, d) => !(d & !s)
    case NSRC_OR => (s, d) => d | !s
    case NSRC_NOR => (s, d) => !(d | !s)
  }

  function ApplyByte(op: TransferFunction, s: bv8, d: bv8): bv8 { ByteOperation(op)(s, d) }

  function ApplyColour(op: TransferFunction, s: Colour, d: Colour): Colour {
    Colour(ApplyByte(op, s.red, d.red), ApplyByte(op, s.green, d.green), ApplyByte(op, s.blue, d.blue))
  }

  /** __guac_common_surface_transfer_int: the new value of the destination. */
  function Apply(op: TransferFunction, s: Pixel, d: Pixel): Pixel {
    Pixel(if op.BLACK? then 0xFF else ApplyByte(op, s.alpha, d.alpha), ApplyColour(op, s.colour, d.colour))
  }

  /** Operations that change nothing when they are applied a second time. */
  predicate Idempotent(op: TransferFunction) {
    op in {BLACK, WHITE, SRC, DEST, NSRC, AND, OR, NSRC_AND, NSRC_OR}
  }

  lemma AndTwice(s: bv8, d: bv8)
    ensures ApplyByte(AND, s, ApplyByte(AND, s, d)) == ApplyByte(AND, s, d)
  {}

  lemma OrTwice(s: bv8, d: bv8)
    ensures ApplyByte(OR, s, ApplyByte(OR, s, d)) == ApplyByte(OR, s, d)
  {}

  lemma AndNotTwice(s: bv8, d: bv8)
    ensures ApplyByte(NSRC_AND, s, ApplyByte(NSRC_AND, s, d)) == ApplyByte(NSRC_AND, s, d)
  {}

  lemma OrNotTwice(s: bv8, d: bv8)
    ensures ApplyByte(NSRC_OR, s, ApplyByte(NSRC_OR, s, d)) == ApplyByte(NSRC_OR, s, d)
  {}

  lemma IdempotentByte(op: TransferFunction, s: bv8, d: bv8)
    requires Idempotent(op)
    ensures ApplyByte(op, s, ApplyByte(op, s, d)) == ApplyByte(op, s, d)
  {
    match op
    case AND => AndTwice(s, d);
    case OR => OrTwice(s, d);
    case NSRC_AND => AndNotTwice(s, d);
    case NSRC_OR => OrNotTwice(s, d);
    case _ =>
  }

  /** The other operations turn a byte of zeros into one of ones, and back. */
  lemma NotIdempotent(op: TransferFunction) returns (s: bv8)
    requires !Idempotent(op)
    ensures ApplyByte(op, s, 0x00) == 0xFF && ApplyByte(op, s, 0xFF) == 0x00
  {
    s := if op in {NAND, XOR, NSRC_NOR} then 0xFF else 0x00;
    match op
    case NDEST => case NAND => case NOR => case XOR => case XNOR => case NSRC_NAND => case NSRC_NOR =>
  }

  lemma IdempotentIs(op: TransferFunction)
    ensures Idempotent(op) <==> forall s, d :: ApplyByte(op, s, ApplyByte(op, s, d)) == ApplyByte(op, s, d)
  {
    if Idempotent(op) {
      forall s, d ensures ApplyByte(op, s, ApplyByte(op, s, d)) == ApplyByte(op, s, d) {
        IdempotentByte(op, s, d);
      }
    } else {
      var s := NotIdempotent(op);
      assert ApplyByte(op, s, ApplyByte(op, s, 0x00)) != ApplyByte(op, s, 0x00);
    }
  }

  lemma Twice(op: TransferFunction, s: Colour, d: Colour)
    requires Idempotent(op)
    ensures ApplyColour(op, s, ApplyColour(op, s, d)) == ApplyColour(op, s, d)
  {
    IdempotentIs(op);
  }

  // ----- the box of changed pixels

  type Points = set<(int, int)>

  /** The loop variables min_x, min_y, max_x, max_y, relative to the rectangle walked over. */
  datatype Extent = Extent(minX: int, minY: int, maxX: int, maxY: int)

  function StartExtent(r: Rect): Extent { Extent(r.width - 1, r.height - 1, 0, 0) }

  function Note(e: Extent, x: int, y: int): Extent {
    Extent(Min(x, e.minX), Min(y, e.minY), Max(x, e.maxX), Max(y, e.maxY))
  }

  /** The translation out of the reversed coordinates of a backward walk. */
  function Reversed(e: Extent, r: Rect): Extent {
    Extent(r.width - 1 - e.maxX, r.height - 1 - e.maxY, r.width - 1 - e.minX, r.height - 1 - e.minY)
  }

  /** Some pixel of `changed` is in column x. */
  ghost predicate InColumn(changed: Points, x: int) { exists y {:trigger (x, y) in changed} :: (x, y) in changed }

  /** Some pixel of `changed` is in row y. */
  ghost predicate InRow(changed: Points, y: int) { exists x {:trigger (x, y) in changed} :: (x, y) in changed }

  /** All of `changed` is in the rectangle, and each of its four sides is touched. */
  ghost predicate IsBox(box: Rect, changed: Points) {
    && (forall x, y {:trigger (x, y) in changed} :: (x, y) in changed ==> box.Has(x, y))
    && InColumn(changed, box.x) && InColumn(changed, box.x + box.width - 1)
    && InRow(changed, box.y) && InRow(changed, box.y + box.height - 1)
  }

  function Box(r: Rect, e: Extent): Rect {
    Rect(r.x + e.minX, r.y + e.minY, e.maxX - e.minX + 1, e.maxY - e.minY + 1)
  }

  /** `e` holds what the loop variables hold once exactly the pixels `changed` have changed. */
  ghost predicate Tracks(e: Extent, r: Rect, changed: Points) {
    && (changed == {} ==> e == StartExtent(r))
    && (changed != {} ==>
         IsBox(Box(r, e), changed) && 0 <= e.minX <= e.maxX < r.width && 0 <= e.minY <= e.maxY < r.height)
  }

  lemma NoteTracks(e: Extent, r: Rect, changed: Points, x: int, y: int)
    requires Tracks(e, r, changed) && 0 <= x < r.width && 0 <= y < r.height
    ensures Tracks(Note(e, x, y), r, changed + {(r.x + x, r.y + y)})
  {
    var n, c := Note(e, x, y), changed + {(r.x + x, r.y + y)};
    var box := Box(r, n);
    assert (r.x + x, r.y + y) in c;
    if changed != {} {
      assert InColumn(c, box.x) by {
        if x >= e.minX { var y' :| (box.x, y') in changed; assert (box.x, y') in c; }
      }
      assert InColumn(c, box.x + box.width - 1) by {
        if x <= e.maxX { var y' :| (box.x + box.width - 1, y') in changed; assert (box.x + box.width - 1, y') in c; }
      }
      assert InRow(c, box.y) by {
        if y >= e.minY { var x' :| (x', box.y) in changed; assert (x', box.y) in c; }
      }
      assert InRow(c, box.y + box.height - 1) by {
        if y <= e.maxY { var x' :| (x', box.y + box.height - 1) in changed; assert (x', box.y + box.height - 1) in c; }
      }
    }
  }

  /** The changed pixels, relative to the rectangle, in the order in which a loop met them. */
  datatype Log = Unchanged | Then(prev: Log, x: int, y: int)

  /** The loop variables after these changes. */
  ghost function ExtentOf(r: Rect, log: Log): Extent {
    match log
    case Unchanged => StartExtent(r)
    case Then(prev, x, y) => Note(ExtentOf(r, prev), x, y)
  }

  /** The changed pixels as a set. */
  ghost function ChangedBy(r: Rect, log: Log): Points {
    match log
    case Unchanged => {}
    case Then(prev, x, y) => ChangedBy(r, prev) + {(r.x + x, r.y + y)}
  }

  ghost predicate LogFits(r: Rect, log: Log) {
    log.Then? ==> 0 <= log.x < r.width && 0 <= log.y < r.height && LogFits(r, log.prev)
  }

  lemma {:induction false} LogTracks(r: Rect, log: Log)
    requires LogFits(r, log)
    ensures Tracks(ExtentOf(r, log), r, ChangedBy(r, log))
  {
    if log.Then? {
      LogTracks(r, log.prev);
      NoteTracks(ExtentOf(r, log.prev), r, ChangedBy(r, log.prev), log.x, log.y);
    }
  }

  /** Counting from the far corner, then translating, is counting from the near corner. */
  lemma ReversedNote(e: Extent, r: Rect, x: int, y: int)
    ensures Reversed(Note(e, x, y), r) == Note(Reversed(e, r), r.width - 1 - x, r.height - 1 - y)
    ensures Reversed(StartExtent(r), r) == StartExtent(r)
  {}

  /** "Restrict destination rect to only updated pixels". */
  function Restrict(r: Rect, e: Extent): Rect {
    if e.maxX >= e.minX && e.maxY >= e.minY then Box(r, e) else r.(width := 0, height := 0)
  }

  /** What the loops report. An unchanged 1 by 1 area is reported as if it had changed. */
  ghost predicate Reports(out: Rect, r: Rect, changed: Points) {
    if changed != {} then IsBox(out, changed) && out.Inside(r)
    else if r.width == 1 && r.height == 1 then out == r
    else out.Empty()
  }

  lemma LogReports(r: Rect, log: Log)
    requires !r.Empty() && LogFits(r, log)
    ensures Reports(Restrict(r, ExtentOf(r, log)), r, ChangedBy(r, log))
  {
    LogTracks(r, log);
  }

  /** A bounding box is determined by the pixels it bounds. */
  lemma BoxIsUnique(a: Rect, b: Rect, changed: Points)
    requires IsBox(a, changed) && IsBox(b, changed)
    ensures a == b
  {}
}
