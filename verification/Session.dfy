/** Many surfaces on one socket: whatever is done with them, every client is kept in agreement with all of them. */
module Sessions {
  import opened Geometry
  import opened Pixels
  import opened PixelLoops
  import opened Client
  import opened Surfaces

  /** Two surfaces share nothing but the socket. */
  ghost predicate AllApart(surfaces: seq<Surface>)
    reads surfaces
  {
    forall i, j :: 0 <= i < j < |surfaces| ==> surfaces[i].Apart(surfaces[j])
  }

  ghost predicate Unused(surfaces: seq<Surface>, l: int) {
    forall i :: 0 <= i < |surfaces| ==> surfaces[i].layer != l
  }

  /** A client that shows black on some layers. */
  ghost predicate Dark(d: Display, l: int) { forall px, py :: d(l).colour(px, py) == BLACK_COLOUR }

  /** A client just opened. */
  const BLANK: Display := _ => Canvas(0, 0, (_, _) => BLACK_COLOUR)

  datatype Action =
    | Allocate(layer: nat, width: nat, height: nat)
    | On(i: nat, command: Command)
    | CopyFrom(i: nat, j: nat, sx: int, sy: int, w: int, h: int, dx: int, dy: int)
    | TransferFrom(i: nat, j: nat, sx: int, sy: int, w: int, h: int, op: TransferFunction, dx: int, dy: int)
    | Joining

  class Session {
    const socket: Socket
    var surfaces: seq<Surface>

    /** Every surface has the invariant of the synchroniser, and layers without a surface are black. */
    ghost predicate Valid()
      reads this, socket, surfaces, set s | s in surfaces :: s.buffer, set s | s in surfaces :: s.queue
    {
      && (forall i :: 0 <= i < |surfaces| ==> surfaces[i].socket == socket && surfaces[i].Valid())
      && AllApart(surfaces)
      && (forall k, l :: 0 <= k < |socket.clients| && Unused(surfaces, l) ==> Dark(socket.clients[k], l))
    }

    constructor (socket: Socket)
      requires forall k, l :: 0 <= k < |socket.clients| ==> Dark(socket.clients[k], l)
      ensures Valid() && this.socket == socket && surfaces == []
    {
      this.socket, surfaces := socket, [];
    }

    /** guac_common_surface_alloc on a layer that has none. */
    method Alloc(layer: nat, w: nat, h: nat)
      requires Valid() && Unused(surfaces, layer)
      modifies this`surfaces, socket
      ensures Valid() && |surfaces| == |old(surfaces)| + 1 && surfaces[..|old(surfaces)|] == old(surfaces)
      ensures var s := surfaces[|old(surfaces)|];
        fresh(s) && fresh(s.buffer) && fresh(s.queue) && s.layer == layer && s.width == w && s.height == h
    {
      var s := new Surface(socket, layer, w, h);
      OthersKept({layer as int});
      Enter(s);
    }

    /** A surface that is in order, and apart from the others, joins them. */
    method Enter(s: Surface)
      requires forall i :: 0 <= i < |surfaces| ==> surfaces[i].socket == socket && surfaces[i].Valid()
      requires AllApart(surfaces) && s.socket == socket && s.Valid()
      requires forall i :: 0 <= i < |surfaces| ==> surfaces[i].Apart(s)
      requires forall k, l :: 0 <= k < |socket.clients| && Unused(surfaces, l) && l != s.layer ==>
        Dark(socket.clients[k], l)
      modifies this`surfaces
      ensures Valid() && surfaces == old(surfaces) + [s]
    {
      ghost var before := surfaces;
      surfaces := surfaces + [s];
      forall l | Unused(surfaces, l) ensures Unused(before, l) && l != s.layer {
        assert surfaces[|before|].layer != l;
        assert forall i :: 0 <= i < |before| ==> surfaces[i] == before[i];
      }
    }

    /** What happens on some layers leaves the surfaces of the others in order, and settled if they were. */
    twostate lemma OthersKept(layers: set<int>)
      requires old(Valid()) && surfaces == old(surfaces)
      requires forall s :: s in surfaces && s.layer !in layers ==>
        unchanged(s) && unchanged(s.buffer) && unchanged(s.queue)
      requires |socket.clients| == |old(socket.clients)|
      requires forall k, l :: 0 <= k < |socket.clients| && l !in layers ==>
        socket.clients[k](l) == old(socket.clients[k])(l)
      ensures forall s :: s in surfaces && s.layer !in layers ==> s.Valid() && (old(Settled(s)) ==> Settled(s))
      ensures forall k, l :: 0 <= k < |socket.clients| && Unused(surfaces, l) && l !in layers ==>
        Dark(socket.clients[k], l)
    {
      forall s | s in surfaces && s.layer !in layers ensures s.Valid() && (old(Settled(s)) ==> Settled(s)) {
        assert old(s.Valid());
        forall px, py | InBuffer(s.buffer, px, py)
          ensures (s.Fresh(px, py) || s.Pending(px, py)) && (old(s.Fresh(px, py)) ==> s.Fresh(px, py))
        {
          assert old(s.Fresh(px, py) || s.Pending(px, py));
        }
      }
    }

    /** Something done to one surface. */
    method Do(i: nat, c: Command)
      requires Valid() && i < |surfaces| && surfaces[i].Allowed(c)
      modifies surfaces[i], surfaces[i].buffer, surfaces[i].queue, socket
      ensures Valid() && (surfaces[i].buffer == old(surfaces[i].buffer) || fresh(surfaces[i].buffer))
    {
      surfaces[i].Do(c);
      OthersKept({surfaces[i].layer});
    }

    /** guac_common_surface_copy from one surface to another. */
    method Copy(i: nat, j: nat, sx: int, sy: int, w: int, h: int, dx: int, dy: int)
      requires Valid() && i < |surfaces| && j < |surfaces| && i != j
      requires surfaces[j].MayMove(surfaces[i], sx, sy, w, h, dx, dy)
      modifies surfaces[i], surfaces[j], surfaces[i].queue, surfaces[j].buffer, surfaces[j].queue, socket
      ensures Valid() && surfaces[i].buffer == old(surfaces[i].buffer) && surfaces[j].buffer == old(surfaces[j].buffer)
    {
      assert surfaces[j].Apart(surfaces[i]);
      surfaces[j].CopyArea(surfaces[i], sx, sy, w, h, dx, dy);
      OthersKept({surfaces[i].layer, surfaces[j].layer});
    }

    /** guac_common_surface_transfer from one surface to another, when that is safe. */
    method Transfer(i: nat, j: nat, sx: int, sy: int, w: int, h: int, op: TransferFunction, dx: int, dy: int)
      requires Valid() && i < |surfaces| && j < |surfaces| && i != j && Safe(j, op)
      requires surfaces[j].MayMove(surfaces[i], sx, sy, w, h, dx, dy)
      modifies surfaces[i], surfaces[j], surfaces[i].queue, surfaces[j].buffer, surfaces[j].queue, socket
      ensures Valid() && surfaces[i].buffer == old(surfaces[i].buffer) && surfaces[j].buffer == old(surfaces[j].buffer)
    {
      assert surfaces[j].Apart(surfaces[i]);
      var _, _ := surfaces[j].TransferArea(surfaces[i], sx, sy, w, h, op, dx, dy);
      OthersKept({surfaces[i].layer, surfaces[j].layer});
    }

    /** A transfer to this surface keeps clients in agreement: the operation may be repeated, or nothing is pending. */
    predicate Safe(j: nat, op: TransferFunction)
      reads this, surfaces
      requires j < |surfaces|
    {
      Idempotent(op) || (!surfaces[j].dirty && surfaces[j].queueLength == 0)
    }

    /** guac_common_surface_dup of every surface, for a client that does not listen to the socket yet. */
    method DupAll(ghost joiner: Display) returns (list: seq<Instruction>)
      requires Valid()
      ensures forall i :: 0 <= i < |surfaces| ==> Agrees(ExecuteAll(joiner, list), surfaces[i])
      ensures forall l :: Unused(surfaces, l) ==> ExecuteAll(joiner, list)(l) == joiner(l)
    {
      list := [];
      ghost var shown := joiner;
      for i := 0 to |surfaces|
        invariant shown == ExecuteAll(joiner, list)
        invariant forall j :: 0 <= j < i ==> Agrees(shown, surfaces[j])
        invariant forall l :: Unused(surfaces, l) ==> shown(l) == joiner(l)
      {
        var more := surfaces[i].Dup(shown);
        ExecuteConcat(joiner, list, more);
        ghost var was := shown;
        shown := ExecuteAll(shown, more);
        list := list + more;
        forall j | 0 <= j < i ensures Agrees(shown, surfaces[j]) {
          assert surfaces[j].Apart(surfaces[i]) && Agrees(was, surfaces[j]);
          assert shown(surfaces[j].layer) == was(surfaces[j].layer);
        }
      }
    }

    /** A client joins: it is sent a duplicate of every surface, and only then listens to the socket. */
    method Join(ghost joiner: Display) returns (list: seq<Instruction>)
      requires Valid() && forall l :: Unused(surfaces, l) ==> Dark(joiner, l)
      modifies socket`clients
      ensures Valid() && socket.clients == old(socket.clients) + [ExecuteAll(joiner, list)]
    {
      list := DupAll(joiner);
      ghost var shown := ExecuteAll(joiner, list);
      socket.clients := socket.clients + [shown];
      forall i | 0 <= i < |surfaces| ensures surfaces[i].Valid() {
        ghost var s := surfaces[i];
        assert old(s.Valid()) && Agrees(shown, s);
        forall px, py | InBuffer(s.buffer, px, py) ensures s.Fresh(px, py) || s.Pending(px, py) {
          assert old(s.Fresh(px, py) || s.Pending(px, py));
        }
      }
    }

    method FlushOne(i: nat)
      requires Valid() && i < |surfaces|
      modifies surfaces[i], surfaces[i].queue, socket
      ensures Valid() && Settled(surfaces[i]) && surfaces[i].buffer == old(surfaces[i].buffer)
      ensures forall j :: 0 <= j < |surfaces| && old(Settled(surfaces[j])) ==> Settled(surfaces[j])
    {
      surfaces[i].Flush();
      OthersKept({surfaces[i].layer});
    }

    /** Every surface is flushed; then every client agrees with every surface everywhere. */
    method FlushAll()
      requires Valid()
      modifies surfaces, set s | s in surfaces :: s.queue, socket
      ensures Valid() && surfaces == old(surfaces) && forall i :: 0 <= i < |surfaces| ==> Settled(surfaces[i])
    {
      for i := 0 to |surfaces|
        invariant Valid() && surfaces == old(surfaces) && forall j :: 0 <= j < i ==> Settled(surfaces[j])
      {
        FlushOne(i);
      }
    }

    /** Surfaces and buffers are those there were, or new ones. */
    twostate predicate Local()
      reads this, surfaces
    {
      forall s :: s in surfaces ==>
        && (s in old(surfaces) || (fresh(s) && fresh(s.queue)))
        && (fresh(s.buffer) || (s in old(surfaces) && s.buffer == old(s.buffer)))
    }

    /** What the code leaves to its callers: surfaces that exist, areas in bounds, transfers that are safe. */
    predicate Allowed(a: Action)
      reads this, surfaces
    {
      match a
      case Allocate(layer, _, _) => forall i :: 0 <= i < |surfaces| ==> surfaces[i].layer != layer
      case On(i, c) => i < |surfaces| && surfaces[i].Allowed(c)
      case CopyFrom(i, j, sx, sy, w, h, dx, dy) =>
        i < |surfaces| && j < |surfaces| && i != j && surfaces[j].MayMove(surfaces[i], sx, sy, w, h, dx, dy)
      case TransferFrom(i, j, sx, sy, w, h, op, dx, dy) =>
        && i < |surfaces| && j < |surfaces| && i != j && Safe(j, op)
        && surfaces[j].MayMove(surfaces[i], sx, sy, w, h, dx, dy)
      case Joining => true
    }

    method Perform(a: Action)
      requires Valid() && Allowed(a)
      modifies this`surfaces, surfaces, set s | s in surfaces :: s.buffer, set s | s in surfaces :: s.queue, socket
      ensures Valid() && Local()
    {
      match a
      case Allocate(layer, w, h) => Alloc(layer, w, h);
      case On(i, c) => Do(i, c);
      case CopyFrom(i, j, sx, sy, w, h, dx, dy) => Copy(i, j, sx, sy, w, h, dx, dy);
      case TransferFrom(i, j, sx, sy, w, h, op, dx, dy) => Transfer(i, j, sx, sy, w, h, op, dx, dy);
      case Joining => var _ := Join(BLANK);
    }

    /**
     * However surfaces are allocated and used, and whoever joins, every surface keeps its invariant for every client;
     * and once all are flushed, every client shows what is in every buffer.
     */
    method Run(actions: seq<Action>)
      requires Valid()
      modifies this`surfaces, surfaces, set s | s in surfaces :: s.buffer, set s | s in surfaces :: s.queue, socket
      ensures Valid() && forall i :: 0 <= i < |surfaces| ==> Settled(surfaces[i])
    {
      for i := 0 to |actions|
        invariant Valid() && Local()
      {
        if Allowed(actions[i]) { Perform(actions[i]); }
      }
      FlushAll();
    }
  }

  /** A client agrees with a surface everywhere. */
  ghost predicate Agrees(d: Display, s: Surface)
    reads s, s.buffer
  {
    && d(s.layer).width == s.width && d(s.layer).height == s.height
    && forall px, py :: InBuffer(s.buffer, px, py) ==> d(s.layer).colour(px, py) == s.buffer[py, px].colour
  }

  /** Nothing is pending, and every client agrees. */
  ghost predicate Settled(s: Surface)
    reads s, s.buffer, s.socket
  {
    && !s.dirty && s.queueLength == 0
    && forall px, py :: InBuffer(s.buffer, px, py) ==> s.Fresh(px, py)
  }
}
