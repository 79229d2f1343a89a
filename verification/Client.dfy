/** The remote side: what a client shows after the drawing instructions it receives. */
module Client {
  import opened Geometry
  import opened Pixels
  import opened Flushing

  /** One layer of the client: its size and the colour at each column and row. */
  datatype Canvas = Canvas(width: int, height: int, colour: (int, int) -> Colour)

  /** All layers of one client, by index. */
  type Display = int -> Canvas

  type Rows = seq<seq<Colour>>

  datatype Instruction =
    | Size(layer: int, width: int, height: int)
    | Png(layer: int, rect: Rect, rows: Rows)
    | Copy(source: int, sx: int, sy: int, layer: int, rect: Rect)
    | Transfer(source: int, sx: int, sy: int, op: TransferFunction, layer: int, rect: Rect)
    | Cfill(layer: int, rect: Rect, fill: Colour)  // a "rect" instruction followed by "cfill"

  /** Colour at column x, row y of an image. */
  function ColourAt(rows: Rows, x: int, y: int): Colour {
    if 0 <= y < |rows| && 0 <= x < |rows[y]| then rows[y][x] else BLACK_COLOUR
  }

  /** The layer an instruction draws on, after the instruction. A copy reads all of its source first. */
  function Drawn(d: Display, i: Instruction): Canvas {
    var c := d(i.layer);
    match i
    case Size(_, w, h) =>
      Canvas(w, h, (x, y) => if 0 <= x < c.width && 0 <= y < c.height then c.colour(x, y) else BLACK_COLOUR)
    case Png(_, r, rows) =>
      c.(colour := (x, y) => if r.Has(x, y) then ColourAt(rows, x - r.x, y - r.y) else c.colour(x, y))
    case Copy(source, sx, sy, _, r) =>
      c.(colour := (x, y) => if r.Has(x, y) then d(source).colour(x - r.x + sx, y - r.y + sy) else c.colour(x, y))
    case Transfer(source, sx, sy, op, _, r) =>
      c.(colour := (x, y) =>
           if r.Has(x, y) then ApplyColour(op, d(source).colour(x - r.x + sx, y - r.y + sy), c.colour(x, y))
           else c.colour(x, y))
    case Cfill(_, r, fill) =>
      c.(colour := (x, y) => if r.Has(x, y) then fill else c.colour(x, y))
  }

  function Execute(d: Display, i: Instruction): Display {
    (layer: int) => if layer == i.layer then Drawn(d, i) else d(layer)
  }

  function ExecuteAll(d: Display, list: seq<Instruction>): Display {
    if list == [] then d else ExecuteAll(Execute(d, list[0]), list[1..])
  }

  lemma ExecuteTwo(d: Display, first: Instruction, second: Instruction)
    ensures ExecuteAll(d, [first, second]) == Execute(Execute(d, first), second)
  {
    assert [first, second][1..] == [second] && [second][1..] == [];
    assert ExecuteAll(d, [first, second]) == ExecuteAll(Execute(d, first), [second]);
    assert ExecuteAll(Execute(d, first), [second]) == ExecuteAll(Execute(Execute(d, first), second), []);
  }

  lemma {:induction false} ExecuteConcat(d: Display, a: seq<Instruction>, b: seq<Instruction>)
    ensures ExecuteAll(d, a + b) == ExecuteAll(ExecuteAll(d, a), b)
    decreases |a|
  {
    if a == [] {
      assert a + b == b;
    } else {
      assert (a + b)[1..] == a[1..] + b;
      ExecuteConcat(Execute(d, a[0]), a[1..], b);
    }
  }

  // ----- operating on what clients show

  /** What a client shows at a pixel after operating once, in an area. */
  function Once(d: Display, layer: int, op: TransferFunction, from: Image, out: Rect, px: int, py: int): Colour {
    var c := d(layer).colour(px, py);
    if out.Has(px, py) then ApplyColour(op, from(px, py).colour, c) else c
  }

  ghost predicate Operated(
    before: seq<Display>, after: seq<Display>, layer: int, op: TransferFunction, from: Image, out: Rect
  ) {
    && |after| == |before|
    && forall k, px, py :: 0 <= k < |after| ==>
      after[k](layer).colour(px, py) == Once(before[k], layer, op, from, out, px, py)
  }

  /** In an area, `now` is what an operation makes of `was`. */
  ghost predicate Result(op: TransferFunction, from: Image, was: Image, now: Image, out: Rect) {
    forall px, py :: out.Has(px, py) ==>
      now(px, py).colour == ApplyColour(op, from(px, py).colour, was(px, py).colour)
  }

  /** What a client shows of `now` when rectangles were sent: the rest of `out` is as it was. */
  ghost function Partly(was: Image, now: Image, out: Rect, sent: seq<Rect>, px: int, py: int): Colour {
    if out.Has(px, py) && !Covers(sent, px, py) then was(px, py).colour else now(px, py).colour
  }

  /** What it shows when all of `out` is operated on then: pixels that were sent are operated on twice. */
  ghost function Outcome(
    op: TransferFunction, from: Image, now: Image, out: Rect, sent: seq<Rect>, px: int, py: int
  ): Colour {
    if out.Has(px, py) && Covers(sent, px, py) then ApplyColour(op, from(px, py).colour, now(px, py).colour)
    else now(px, py).colour
  }

  ghost predicate AllPartly(
    clients: seq<Display>, layer: int, area: Rect, was: Image, now: Image, out: Rect, sent: seq<Rect>
  ) {
    forall k, px, py :: 0 <= k < |clients| && area.Has(px, py) ==>
      clients[k](layer).colour(px, py) == Partly(was, now, out, sent, px, py)
  }

  ghost predicate AllOutcome(
    clients: seq<Display>, layer: int, area: Rect, op: TransferFunction, from: Image, now: Image, out: Rect,
    sent: seq<Rect>
  ) {
    forall k, px, py :: 0 <= k < |clients| && area.Has(px, py) ==>
      clients[k](layer).colour(px, py) == Outcome(op, from, now, out, sent, px, py)
  }

  lemma OperatedOutcome(
    before: seq<Display>, after: seq<Display>, layer: int, area: Rect, op: TransferFunction, from: Image, was: Image,
    now: Image, out: Rect, sent: seq<Rect>
  )
    requires AllPartly(before, layer, area, was, now, out, sent) && Operated(before, after, layer, op, from, out)
    requires Result(op, from, was, now, out)
    ensures AllOutcome(after, layer, area, op, from, now, out, sent)
  {
    forall k, px, py | 0 <= k < |after| && area.Has(px, py)
      ensures after[k](layer).colour(px, py) == Outcome(op, from, now, out, sent, px, py)
    {
      assert before[k](layer).colour(px, py) == Partly(was, now, out, sent, px, py);
    }
  }

  /** Nothing is amiss if the operation may be repeated, or nothing was sent. */
  lemma OutcomeIsNow(op: TransferFunction, from: Image, was: Image, now: Image, out: Rect, sent: seq<Rect>)
    requires Result(op, from, was, now, out) && (Idempotent(op) || sent == [])
    ensures forall px, py :: Outcome(op, from, now, out, sent, px, py) == now(px, py).colour
  {
    forall px, py ensures Outcome(op, from, now, out, sent, px, py) == now(px, py).colour {
      if Idempotent(op) { Twice(op, from(px, py).colour, was(px, py).colour); }
    }
  }

  /** Clients show an image where rectangles of it were sent, and elsewhere what they did. */
  ghost predicate Repainted(
    before: seq<Display>, after: seq<Display>, layer: int, area: Rect, image: Image, sent: seq<Rect>
  ) {
    && |after| == |before|
    && forall k, px, py :: 0 <= k < |after| && area.Has(px, py) ==>
      after[k](layer).colour(px, py) ==
        if Covers(sent, px, py) then image(px, py).colour else before[k](layer).colour(px, py)
  }

  /** What is not sent of an image is shown partly already. */
  ghost predicate UnsentPartly(
    clients: seq<Display>, layer: int, area: Rect, was: Image, now: Image, out: Rect, sent: seq<Rect>
  ) {
    forall k, px, py :: 0 <= k < |clients| && area.Has(px, py) && !Covers(sent, px, py) ==>
      clients[k](layer).colour(px, py) == Partly(was, now, out, sent, px, py)
  }

  lemma RepaintedPartly(
    before: seq<Display>, after: seq<Display>, layer: int, area: Rect, was: Image, now: Image, out: Rect,
    sent: seq<Rect>
  )
    requires UnsentPartly(before, layer, area, was, now, out, sent) && Repainted(before, after, layer, area, now, sent)
    ensures AllPartly(after, layer, area, was, now, out, sent)
  {}

  lemma RepaintedStill(
    before: seq<Display>, mid: seq<Display>, after: seq<Display>, layer: int, area: Rect, image: Image, sent: seq<Rect>
  )
    requires Repainted(before, mid, layer, area, image, sent)
    requires |after| == |mid| && forall k :: 0 <= k < |mid| ==> after[k](layer) == mid[k](layer)
    ensures Repainted(before, after, layer, area, image, sent)
  {}

  lemma RepaintedAt(
    before: seq<Display>, after: seq<Display>, layer: int, area: Rect, image: Image, sent: seq<Rect>, px: int, py: int
  )
    requires Repainted(before, after, layer, area, image, sent) && area.Has(px, py)
    requires Covers(sent, px, py) ||
      forall k :: 0 <= k < |before| ==> before[k](layer).colour(px, py) == image(px, py).colour
    ensures forall k :: 0 <= k < |after| ==> after[k](layer).colour(px, py) == image(px, py).colour
  {}

  lemma RepaintedMore(
    before: seq<Display>, mid: seq<Display>, after: seq<Display>, layer: int, area: Rect, image: Image,
    first: seq<Rect>, more: seq<Rect>
  )
    requires Repainted(before, mid, layer, area, image, first) && Repainted(mid, after, layer, area, image, more)
    ensures Repainted(before, after, layer, area, image, first + more)
  {
    forall k, px, py | 0 <= k < |after| && area.Has(px, py)
      ensures after[k](layer).colour(px, py) ==
        if Covers(first + more, px, py) then image(px, py).colour else before[k](layer).colour(px, py)
    {
      CoversMore(first, more, px, py);
      assert mid[k](layer).colour(px, py) ==
        if Covers(first, px, py) then image(px, py).colour else before[k](layer).colour(px, py);
    }
  }

  function Broadcast(clients: seq<Display>, i: Instruction): seq<Display> {
    seq(|clients|, k requires 0 <= k < |clients| => Execute(clients[k], i))
  }

  /** The broadcast socket: everything sent on it reaches every client attached to it. */
  class Socket {
    var sent: seq<Instruction>
    ghost var clients: seq<Display>

    constructor (ghost clients: seq<Display>)
      ensures sent == [] && this.clients == clients
    {
      sent := [];
      this.clients := clients;
    }

    method Send(i: Instruction)
      modifies this
      ensures sent == old(sent) + [i]
      ensures |clients| == old(|clients|)
      ensures forall k :: 0 <= k < |clients| ==> clients[k] == Execute(old(clients[k]), i)
    {
      sent := sent + [i];
      clients := Broadcast(clients, i);
    }
  }
}
