/**
 * The buffer pool of log.go:14-58: a bounded first-in first-out queue of
 * (buffer, closed flag) pairs. Acquiring never blocks: it takes the oldest
 * pair or, when the pool is empty, allocates a fresh one. Releasing never
 * blocks either: it marks the pair closed and queues it, or drops it when
 * the pool is full.
 */
module Pool {
  import opened Values
  import opened Shared

  /** Number of pairs the pool holds at most (log.go:15). */
  const PoolSize: nat := 100

  /** A pooled buffer together with the closed flag that travels with it. */
  datatype Reusable = Reusable(buffer: Slice, closed: Flag)

  /** newLogger: an empty buffer of the default capacity and a fresh flag at 0. */
  method NewReusable() returns (r: Reusable)
    ensures fresh(r.buffer.arr) && fresh(r.closed)
    ensures r.buffer.len == 0 && r.buffer.arr.Length == DefaultBufferSize
    ensures r.closed.value == 0
  {
    var arr := new byte[DefaultBufferSize];
    var flag := new Flag();
    r := Reusable(Slice(arr, 0), flag);
  }

  /** The buffered channel `pool`, with its contents in channel order. */
  class BufferPool {
    var entries: seq<Reusable>

    /** At most PoolSize pairs, and every queued buffer has been truncated
        to length 0. */
    ghost predicate Valid()
      reads this
    {
      |entries| <= PoolSize && forall i :: 0 <= i < |entries| ==> entries[i].buffer.len == 0
    }

    constructor()
      ensures Valid() && entries == []
    {
      entries := [];
    }

    /** The object an acquire may change: the flag of the oldest pair, when
        there is one. */
    function HeadFlag(): set<object>
      reads this
    {
      if |entries| > 0 then {entries[0].closed} else {}
    }

    /** The flag and the buffer of the oldest pair, which a new logger built
        on it goes on to change. */
    function Head(): set<object>
      reads this
    {
      if |entries| > 0 then {entries[0].closed, entries[0].buffer.arr} else {}
    }

    /** acquireLogger (log.go:32-44): the oldest queued pair with its flag
        reset to 0, or a fresh pair when the pool is empty. The buffer's bytes
      are left as they were. */
    method Acquire() returns (r: Reusable)
      requires Valid()
      modifies this, HeadFlag()
      ensures Valid()
      ensures r.buffer.Valid() && r.buffer.len == 0 && r.closed.value == 0
      ensures old(entries) != [] ==>
                r == old(entries[0]) && entries == old(entries[1..])
      ensures old(entries) == [] ==>
                entries == [] && fresh(r.buffer.arr) && fresh(r.closed)
                && r.buffer.arr.Length == DefaultBufferSize
    {
      if |entries| > 0 {
        r := entries[0];
        entries := entries[1..];
        r.closed.value := 0;
      } else {
        r := NewReusable();
      }
    }

    /** releaseLogger (log.go:46-58): the flag is set to 1 and the buffer
        truncated; the pair is queued at the tail, or dropped when the pool
        is full. Nothing checks whether the pair is already queued. */
    method Release(r: Reusable)
      requires Valid()
      modifies this, r.closed
      ensures Valid()
      ensures r.closed.value == 1
      ensures old(|entries|) < PoolSize ==> entries == old(entries) + [Reusable(Slice(r.buffer.arr, 0), r.closed)]
      ensures old(|entries|) >= PoolSize ==> entries == old(entries)
    {
      r.closed.value := 1;
      var truncated := Reusable(Slice(r.buffer.arr, 0), r.closed);
      if |entries| < PoolSize {
        entries := entries + [truncated];
      }
    }
  }
}
