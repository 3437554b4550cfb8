/**
 * The mutable pieces a logger lineage shares by reference: a Go byte slice
 * (a backing array and the length of one view onto it), the closed flag,
 * and the sink that records are written to.
 */
module Shared {
  import opened Values

  /** Capacity of a freshly allocated logger buffer (log.go:16). */
  const DefaultBufferSize: nat := 1024

  /** A Go `[]byte` value: a backing array shared by every copy of the slice,
      and this copy's own length. The capacity is the array's length. */
  datatype Slice = Slice(arr: array<byte>, len: nat) {
    predicate Valid() {
      len <= arr.Length
    }

    /** The bytes this view sees. */
    function Contents(): Bytes
      reads arr
      requires Valid()
    {
      arr[..len]
    }
  }

  function Max(x: nat, y: nat): nat { if x < y then y else x }

  /** Copies x into a starting at index at, leaving the bytes before at and
      the bytes past the copy alone. */
  method CopyInto(a: array<byte>, at: nat, x: Bytes)
    requires at + |x| <= a.Length
    modifies a
    ensures a[..] == old(a[..at]) + x + old(a[at + |x|..])
  {
    for k := 0 to |x|
      invariant forall j :: 0 <= j < at ==> a[j] == old(a[j])
      invariant forall j :: 0 <= j < k ==> a[at + j] == x[j]
      invariant forall j :: at + |x| <= j < a.Length ==> a[j] == old(a[j])
    {
      a[at + k] := x[k];
    }
    assert forall j :: at <= j < at + |x| ==> a[j] == x[j - at];
  }

  /** Go's `append(s, x...)`. When the capacity suffices the bytes are written
      into the shared array just past the view, where other views of the same
      array may see them; otherwise a fresh array is allocated, the view's
      bytes are copied over, and the old array is left alone. Either way the
      bytes the view already holds are never changed. */
  method Append(s: Slice, x: Bytes) returns (r: Slice)
    requires s.Valid()
    modifies s.arr
    ensures r.Valid() && r.len == s.len + |x|
    ensures r.Contents() == old(s.Contents()) + x
    ensures s.arr[..s.len] == old(s.arr[..s.len])
    ensures s.len + |x| <= s.arr.Length ==>
              r.arr == s.arr && s.arr[..] == old(s.arr[..s.len]) + x + old(s.arr[s.len + |x|..])
    ensures s.len + |x| > s.arr.Length ==>
              fresh(r.arr) && r.arr.Length == Max(2 * s.arr.Length, s.len + |x|) && unchanged(s.arr)
  {
    var need := s.len + |x|;
    if need <= s.arr.Length {
      CopyInto(s.arr, s.len, x);
      r := Slice(s.arr, need);
    } else {
      var grown := new byte[Max(2 * s.arr.Length, need)];
      CopyInto(grown, 0, s.arr[..s.len]);
      CopyInto(grown, s.len, x);
      r := Slice(grown, need);
    }
    assert r.Contents() == old(s.Contents()) + x;
  }

  /** The `closed` cell, an int64 shared by every logger of one lineage and
      by the pool entry it came from: 0 while the lineage is live, 1 after
      release. */
  class Flag {
    var value: int

    constructor()
      ensures value == 0
    {
      value := 0;
    }
  }

  /** The destination `io.Writer`, reduced to the sequence of byte strings
      handed to it. Write errors are not modelled. */
  class Sink {
    var records: seq<Bytes>

    constructor()
      ensures records == []
    {
      records := [];
    }

    method Write(m: Bytes)
      modifies this
      ensures records == old(records) + [m]
    {
      records := records + [m];
    }
  }
}
