/**
 * Whole sessions of the logger, each on its own sink and pool: the level
 * gate, children that share their parent's buffer, and what the closed
 * flag does once a buffer goes back to the pool. The first six follow the
 * package's own tests (log_test.go); the last four show what sharing a
 * buffer and a flag between loggers leads to.
 */
module Scenarios {
  import opened Values
  import opened Encode
  import opened Shared
  import opened Pool
  import opened Api

  /** A logger at LevelDebug emits one record per call, each naming its own
      level (log_test.go:98-134). */
  method Levels(message: Bytes, attrs: seq<Attr>) returns (written: seq<Bytes>)
    ensures written == [Record(['{'], LevelError, message, attrs),
                        Record(['{'], LevelWarning, message, attrs),
                        Record(['{'], LevelDebug, message, attrs)]
  {
    var sink := new Sink();
    var pool := new BufferPool();
    var l := New(sink, LevelDebug, pool);
    Api.Error(l, message, attrs);
    Warning(l, message, attrs);
    Debug(l, message, attrs);
    written := sink.records;
  }

  /** A logger at LevelError ignores a warning (log_test.go:136-143). */
  method LowLevelIsQuiet(message: Bytes) returns (written: seq<Bytes>)
    ensures written == []
  {
    var sink := new Sink();
    var pool := new BufferPool();
    var l := New(sink, LevelError, pool);
    Warning(l, message, []);
    written := sink.records;
  }

  /** A grandchild that is built and dropped leaves no trace in what its
      parent writes next (log_test.go:339-356). */
  method CancelledCascade(first: seq<Attr>, dropped: seq<Attr>, message: Bytes, attrs: seq<Attr>)
    returns (written: seq<Bytes>)
    ensures written == [Record(['{'] + Fields(false, first), LevelDebug, message, attrs)]
  {
    var sink := new Sink();
    var pool := new BufferPool();
    var l := New(sink, LevelDebug, pool);
    var child := WithAttrs(l, first);
    var _ := WithAttrs(child, dropped);
    Debug(child, message, attrs);
    written := sink.records;
  }

  /** A child writes with both contexts, and its parent's next record
      carries only the parent's own context: the child's bytes, appended in
      the shared array past the parent's view, are not part of it
      (log_test.go:359-427). */
  method SequencedWrites(context: seq<Attr>, more: seq<Attr>, m1: Bytes, a1: seq<Attr>, m2: Bytes, a2: seq<Attr>)
    returns (written: seq<Bytes>)
    ensures var v := ['{'] + Fields(false, context);
            var w := v + Fields(NeedsSep(v), more);
            written == [Record(w, LevelDebug, m1, a1), Record(v, LevelDebug, m2, a2)]
  {
    var sink := new Sink();
    var pool := new BufferPool();
    var root := New(sink, LevelDebug, pool);
    assert !NeedsSep(['{']);
    var l := WithAttrs(root, context);
    ChildThenParent(l, more, m1, a1, m2, a2);
    written := sink.records;
  }

  /** The second half of SequencedWrites, on any live debug-level logger:
      a child made from it writes, then it writes itself. */
  method ChildThenParent(l: Logger, more: seq<Attr>, m1: Bytes, a1: seq<Attr>, m2: Bytes, a2: seq<Attr>)
    requires l.Valid() && l.closed.value == 0 && l.level == LevelDebug
    modifies l.buffer.arr, l.sink
    ensures var v := old(l.View());
            var w := v + Fields(NeedsSep(v), more);
            l.sink.records == old(l.sink.records) + [Record(w, LevelDebug, m1, a1), Record(v, LevelDebug, m2, a2)]
  {
    ghost var v := l.View();
    var child := WithAttrs(l, more);
    Debug(child, m1, a1);
    if child.buffer.arr == l.buffer.arr {
      KeepsPrefix(l.buffer, child.buffer, v);
    }
    Debug(l, m2, a2);
  }

  /** A logger whose buffer has a longer view on the same array still
      shows the shorter one's bytes while its own are unchanged. */
  lemma KeepsPrefix(short: Slice, long: Slice, v: Bytes)
    requires short.Valid() && long.Valid() && short.len <= long.len
    requires short.arr == long.arr && long.Contents()[..short.len] == v
    ensures short.Contents() == v
  {
  }

  /** After Close nothing more is written, through the closed logger or
      through any other logger of its lineage (log_test.go:430-437). */
  method CloseSilences(context: seq<Attr>, message: Bytes) returns (written: seq<Bytes>)
    ensures written == []
  {
    var sink := new Sink();
    var pool := new BufferPool();
    var root := New(sink, LevelDebug, pool);
    var l := WithAttrs(root, context);
    Close(l, pool);
    Api.Error(l, message, []);
    Api.Error(root, message, []);
    written := sink.records;
  }

  /** A new logger takes the closed lineage's buffer and flag from the pool
      and writes again (log_test.go:439-443). */
  method ReopenWrites(context: seq<Attr>, message: Bytes, attrs: seq<Attr>)
    returns (reused: bool, written: seq<Bytes>)
    ensures reused
    ensures written == [Record(['{'] + Fields(false, context), LevelError, message, attrs)]
  {
    var sink := new Sink();
    var pool := new BufferPool();
    var first := New(sink, LevelDebug, pool);
    Close(first, pool);
    var root := New(sink, LevelDebug, pool);
    reused := root.closed == first.closed && root.buffer.arr == first.buffer.arr;
    var l := WithAttrs(root, context);
    assert !NeedsSep(['{']);
    Api.Error(l, message, attrs);
    written := sink.records;
  }

  /** Closing twice queues the same pair twice, so two later loggers share
      one buffer and one flag, and closing either silences the other. */
  method DoubleClose(message: Bytes, attrs: seq<Attr>)
    returns (sameFlag: bool, sameBuffer: bool, written: seq<Bytes>)
    ensures sameFlag && sameBuffer
    ensures written == []
  {
    var sink := new Sink();
    var pool := new BufferPool();
    var l := New(sink, LevelDebug, pool);
    Close(l, pool);
    Close(l, pool);
    var a := New(sink, LevelDebug, pool);
    var b := New(sink, LevelDebug, pool);
    sameFlag := a.closed == b.closed;
    sameBuffer := a.buffer.arr == b.buffer.arr;
    Close(a, pool);
    Api.Error(b, message, attrs);
    written := sink.records;
  }

  /** Acquire resets the flag of the pair it hands out, so a logger kept
      after Close writes again once its buffer is reused. */
  method StaleLoggerRevives(message: Bytes, attrs: seq<Attr>) returns (written: seq<Bytes>)
    ensures written == [Record(['{'], LevelError, message, attrs)]
  {
    var sink := new Sink();
    var pool := new BufferPool();
    var stale := New(sink, LevelDebug, pool);
    Close(stale, pool);
    var reuser := New(sink, LevelDebug, pool);
    KeepsPrefix(stale.buffer, reuser.buffer, ['{']);
    Api.Error(stale, message, attrs);
    written := sink.records;
  }

  /** Two children of one logger append at the same place in the shared
      array: the first child's context is overwritten by the second's
      attributes, and when the second's are shorter, the first child's view
      ends in a remnant of its own. */
  method SiblingOverwrite(xs: seq<Attr>, ys: seq<Attr>) returns (first: Bytes)
    requires 1 + |Fields(false, xs)| <= DefaultBufferSize
    requires 1 + |Fields(false, ys)| <= DefaultBufferSize
    ensures var fx, fy := Fields(false, xs), Fields(false, ys);
            |fx| <= |fy| ==> first == (['{'] + fy)[..1 + |fx|]
    ensures var fx, fy := Fields(false, xs), Fields(false, ys);
            |fx| > |fy| ==> first == ['{'] + fy + fx[|fy|..]
  {
    var sink := new Sink();
    var pool := new BufferPool();
    var l := New(sink, LevelDebug, pool);
    assert !NeedsSep(['{']);
    var c1 := WithAttrs(l, xs);
    ghost var fx, a1 := Fields(false, xs), l.buffer.arr[..];
    var c2 := WithAttrs(l, ys);
    ghost var fy := Fields(false, ys);
    first := c1.buffer.arr[..c1.buffer.len];
    OverlaidPrefix(l.buffer.arr[..], a1, ['{'] + fy, 1 + |fx|);
    if |fx| > |fy| {
      assert a1[..1 + |fx|] == ['{'] + fx;
      assert a1[1 + |fy|..1 + |fx|] == fx[|fy|..];
    }
  }

  /** A parent that writes after making a child writes its record where the
      child's context lies, so the child's next record opens with the start
      of the parent's record instead of its own attributes. */
  method ParentOverwritesChild(context: seq<Attr>, message: Bytes, next: Bytes)
    returns (written: seq<Bytes>)
    requires |Record(['{'], LevelDebug, message, [])| <= DefaultBufferSize
    requires 1 + |Fields(false, context)| <= |Record(['{'], LevelDebug, message, [])|
    ensures var r := Record(['{'], LevelDebug, message, []);
            written == [r, Record(r[..1 + |Fields(false, context)|], LevelDebug, next, [])]
  {
    var sink := new Sink();
    var pool := new BufferPool();
    var root := New(sink, LevelDebug, pool);
    assert !NeedsSep(['{']);
    var child := WithAttrs(root, context);
    ghost var r, k := Record(['{'], LevelDebug, message, []), 1 + |Fields(false, context)|;
    ghost var before := root.buffer.arr[..];
    assert root.View() == ['{'] && child.buffer.arr == root.buffer.arr && child.buffer.len == k;
    Debug(root, message, []);
    OverlaidPrefix(root.buffer.arr[..], before, r, k);
    assert child.View() == r[..k];
    Debug(child, next, []);
    written := sink.records;
  }
}
