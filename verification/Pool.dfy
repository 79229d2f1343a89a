/** The pool of reusable integers of pool.cpp, and the stream and buffer indices drawn from it. */
module Pool {
  import opened Collections
  import opened Wire

  /** guac_pool_int */
  class PoolInt {
    var value: int
    var next: PoolInt?

    constructor (value: int)
      ensures this.value == value && next == null
    {
      this.value, next := value, null;
    }
  }

  // ----- live and free integers

  /** Every integer below next is either live or, once, in the list of free ones; and no others are. */
  ghost predicate Partition(live: set<int>, free: seq<int>, next: nat) {
    && (forall v :: v in live <==> 0 <= v < next && v !in free)
    && (forall v :: v in free ==> 0 <= v < next)
    && NoDup(free)
  }

  lemma DrawNew(live: set<int>, free: seq<int>, next: nat)
    requires Partition(live, free, next)
    ensures Partition(live + {next}, free, next + 1) && next !in live && next !in free
  {}

  lemma DrawFirst(live: set<int>, free: seq<int>, next: nat)
    requires Partition(live, free, next) && free != []
    ensures Partition(live + {free[0]}, free[1..], next) && free[0] !in live && 0 <= free[0] < next
  {
    assert free[0] in free;
    assert free == [free[0]] + free[1..];
    forall v | v in free[1..] ensures v in free && v != free[0] {
      var i :| 0 <= i < |free[1..]| && free[1..][i] == v;
      assert free[i + 1] == v && free[0] != free[i + 1];
    }
  }

  lemma Return(live: set<int>, free: seq<int>, next: nat, v: int)
    requires Partition(live, free, next) && v in live
    ensures Partition(live - {v}, free + [v], next)
  {}

  /** With nothing free, as many are live as were ever drawn. */
  lemma {:induction false} AllLive(live: set<int>, next: nat)
    requires forall v :: v in live <==> 0 <= v < next
    ensures |live| == next
  {
    if next > 0 {
      AllLive(live - {next - 1}, next - 1);
    } else {
      assert forall v :: v !in live;
    }
  }

  // ----- the pool

  class IntPool {
    const minSize: nat
    var active: nat
    var nextValue: nat
    var head: PoolInt?
    var tail: PoolInt?
    ghost var nodes: seq<PoolInt>  // the list from head to tail
    ghost var free: seq<int>       // its values
    ghost var live: set<int>       // handed out and not returned

    ghost predicate Linked()
      reads this, nodes
    {
      && NoDup(nodes)
      && head == At(nodes, 0, null) && tail == At(nodes, |nodes| - 1, null)
      && (forall i {:trigger nodes[i].next} :: 0 <= i < |nodes| ==> nodes[i].next == At(nodes, i + 1, null))
      && |free| == |nodes| && (forall i :: 0 <= i < |nodes| ==> nodes[i].value == free[i])
    }

    ghost predicate Valid()
      reads this, nodes
    {
      Linked() && Partition(live, free, nextValue) && active == |live|
    }

    /** guac_pool_alloc */
    constructor (size: nat)
      ensures Valid() && minSize == size && live == {} && nextValue == 0 && nodes == []
    {
      minSize, active, nextValue, head, tail := size, 0, 0, null, null;
      nodes, free, live := [], [], {};
    }

    /** The head of the list is unlinked and freed. */
    method PopHead() returns (value: int)
      requires Linked() && head != null
      modifies this`head, this`tail, this`nodes, this`free
      ensures Linked() && nodes == old(nodes)[1..] && free == old(free)[1..] && value == old(free)[0]
    {
      value := head.value;
      if tail == head {
        head, tail := null, null;
      } else {
        head := head.next;
      }
      nodes, free := nodes[1..], free[1..];
    }

    /** A node at the tail of the list. */
    method Append(value: int)
      requires Linked()
      modifies this`head, this`tail, this`nodes, this`free, nodes`next
      ensures Linked() && free == old(free) + [value]
      ensures nodes[..|old(nodes)|] == old(nodes) && |nodes| == |old(nodes)| + 1 && fresh(nodes[|old(nodes)|])
    {
      var poolInt := new PoolInt(value);
      if tail == null {
        head, tail := poolInt, poolInt;
      } else {
        tail.next := poolInt;
        tail := poolInt;
      }
      nodes, free := nodes + [poolInt], free + [value];
    }

    /** A new integer. */
    method DrawUnused() returns (value: int)
      requires Linked() && Partition(live, free, nextValue)
      modifies this`nextValue, this`live
      ensures Linked() && Partition(live, free, nextValue)
      ensures value == old(nextValue) && value !in old(live) && nextValue == value + 1 && live == old(live) + {value}
    {
      DrawNew(live, free, nextValue);
      value := nextValue;
      nextValue := nextValue + 1;
      live := live + {value};
    }

    /** The integer returned first. */
    method DrawReturned() returns (value: int)
      requires Linked() && Partition(live, free, nextValue) && head != null
      modifies this`head, this`tail, this`nodes, this`free, this`live
      ensures Linked() && Partition(live, free, nextValue) && 0 <= value < nextValue
      ensures old(free) != [] && value == old(free)[0] && value !in old(live) && live == old(live) + {value}
      ensures nodes == old(nodes)[1..] && free == old(free)[1..]
    {
      DrawFirst(live, free, nextValue);
      value := PopHead();
      live := live + {value};
    }

    /** guac_pool_next_int: a new integer while there are few or none is free, else the one returned first. */
    method NextInt() returns (value: int)
      requires Valid()
      modifies this`active, this`nextValue, this`head, this`tail, this`nodes, this`free, this`live
      ensures Valid() && value !in old(live) && live == old(live) + {value} && 0 <= value < nextValue
      ensures
        if old(free) == [] || old(nextValue) < minSize then
          value == old(nextValue) && nextValue == old(nextValue) + 1 && free == old(free) && nodes == old(nodes)
        else
          value == old(free)[0] && nextValue == old(nextValue) && free == old(free)[1..] && nodes == old(nodes)[1..]
    {
      active := active + 1;
      if head == null || nextValue < minSize {
        value := DrawUnused();
      } else {
        value := DrawReturned();
      }
    }

    /** guac_pool_free_int, of an integer that was handed out. */
    method FreeInt(value: int)
      requires Valid() && value in live
      modifies this`active, this`head, this`tail, this`nodes, this`free, this`live, nodes`next
      ensures Valid() && live == old(live) - {value} && nextValue == old(nextValue) && free == old(free) + [value]
      ensures forall i :: 0 <= i < |nodes| ==> nodes[i] in old(nodes) || fresh(nodes[i])
    {
      Return(live, free, nextValue, value);
      active := active - 1;
      Append(value);
      live := live - {value};
    }
  }

  // ----- streams

  const GUAC_USER_MAX_STREAMS := 64
  const GUAC_USER_CLOSED_STREAM_INDEX := -1

  /** The output streams of GuacUser.cpp, of which only the indices matter here. */
  class GuacUser {
    const pool: IntPool
    const outputStreams: array<int>

    /** A pool without a minimum never goes beyond the most streams ever open at once. */
    ghost predicate Valid()
      reads this, pool, pool.nodes, outputStreams
    {
      && pool.Valid() && pool.minSize == 0
      && outputStreams.Length == GUAC_USER_MAX_STREAMS && pool.nextValue <= GUAC_USER_MAX_STREAMS
      && (forall i :: 0 <= i < outputStreams.Length ==>
        outputStreams[i] == if i in pool.live then i else GUAC_USER_CLOSED_STREAM_INDEX)
    }

    constructor ()
      ensures Valid() && pool.live == {} && fresh(pool) && fresh(outputStreams)
    {
      var streams := new int[GUAC_USER_MAX_STREAMS];
      for i := 0 to GUAC_USER_MAX_STREAMS
        invariant forall j :: 0 <= j < i ==> streams[j] == GUAC_USER_CLOSED_STREAM_INDEX
      {
        streams[i] := GUAC_USER_CLOSED_STREAM_INDEX;
      }
      outputStreams := streams;
      pool := new IntPool(0);
    }

    /** AllocStream: refused only when 64 streams are open; otherwise a slot that was closed. */
    method AllocStream() returns (stream: Option<nat>)
      requires Valid()
      modifies pool, outputStreams
      ensures Valid() && (stream.None? <==> |old(pool.live)| == GUAC_USER_MAX_STREAMS)
      ensures stream.None? ==> pool.live == old(pool.live)
      ensures stream.Some? ==> stream.value < GUAC_USER_MAX_STREAMS && stream.value !in old(pool.live)
      ensures stream.Some? ==> pool.live == old(pool.live) + {stream.value as int}
    {
      if pool.active == GUAC_USER_MAX_STREAMS { return None; }
      if pool.free == [] { AllLive(pool.live, pool.nextValue); }
      var index := pool.NextInt();
      outputStreams[index] := index;
      stream := Some(index);
    }

    /** FreeStream, of an open stream. */
    method FreeStream(stream: nat)
      requires Valid() && stream < GUAC_USER_MAX_STREAMS && outputStreams[stream] != GUAC_USER_CLOSED_STREAM_INDEX
      modifies pool, outputStreams, pool.nodes`next
      ensures Valid() && pool.live == old(pool.live) - {stream as int}
    {
      pool.FreeInt(outputStreams[stream]);
      outputStreams[stream] := GUAC_USER_CLOSED_STREAM_INDEX;
    }
  }

  // ----- buffers

  const GUAC_BUFFER_POOL_INITIAL_SIZE := 1024

  ghost predicate IsBuffer(live: set<int>, index: int) { -index - 1 in live }

  /** The buffer indices of GuacClient.cpp. */
  class GuacClient {
    const bufferPool: IntPool

    ghost predicate Valid()
      reads this, bufferPool, bufferPool.nodes
    {
      bufferPool.Valid() && bufferPool.minSize == GUAC_BUFFER_POOL_INITIAL_SIZE
    }

    constructor ()
      ensures Valid() && bufferPool.live == {} && fresh(bufferPool)
    {
      bufferPool := new IntPool(GUAC_BUFFER_POOL_INITIAL_SIZE);
    }

    /** AllocBuffer: a negative index that no live buffer has. */
    method AllocBuffer() returns (index: int)
      requires Valid()
      modifies bufferPool
      ensures Valid() && index < 0 && !IsBuffer(old(bufferPool.live), index)
      ensures forall k :: IsBuffer(bufferPool.live, k) <==> IsBuffer(old(bufferPool.live), k) || k == index
    {
      var value := bufferPool.NextInt();
      index := -value - 1;
    }

    method FreeBuffer(index: int)
      requires Valid() && IsBuffer(bufferPool.live, index)
      modifies bufferPool, bufferPool.nodes`next
      ensures Valid()
      ensures forall k :: IsBuffer(bufferPool.live, k) <==> IsBuffer(old(bufferPool.live), k) && k != index
    {
      bufferPool.FreeInt(-index - 1);
    }
  }
}
