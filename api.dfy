/**
 * The logger of api.go. A Logger is a value: a sink, a level threshold, a
 * view onto a byte buffer whose backing array every logger of the lineage
 * shares, and the lineage's closed flag. WithAttrs and Write append into the
 * shared array just past the view; neither ever changes a byte the view
 * already holds, and a Logger's own length never changes.
 */
module Api {
  import opened Values
  import opened JsonRead
  import opened Encode
  import opened Shared
  import opened Pool

  datatype Logger = Logger(sink: Sink, level: Level, buffer: Slice, closed: Flag) {
    predicate Valid() {
      buffer.Valid()
    }

    /** The context this logger carries: `{` followed by its attributes. */
    function View(): Bytes
      reads buffer.arr
      requires Valid()
    {
      buffer.Contents()
    }
  }

  const MessageKey: Bytes := "\"message\":"
  const LevelKey: Bytes := ",\"level\":\""
  const ObjectEnd: Bytes := ['}']

  /** What precedes the message string in a record: the context, a comma
      when the context already holds a field, and the message key. */
  function RecordHead(view: Bytes): Bytes {
    view + Separator(NeedsSep(view)) + MessageKey
  }

  /** What follows the message string: the level field, the call's own
      attributes and the closing brace. */
  function RecordTail(level: Level, attrs: seq<Attr>): Bytes {
    LevelKey + LevelName(level) + Quote + Fields(true, attrs) + ObjectEnd
  }

  /** The record an enabled write emits from a logger whose context is view. */
  function Record(view: Bytes, level: Level, message: Bytes, attrs: seq<Attr>): Bytes {
    RecordHead(view) + Quoted(message) + RecordTail(level, attrs)
  }

  /** Where a string literal sits between a head h and a tail t. */
  lemma AroundString(h: Bytes, e: Bytes, t: Bytes)
    ensures var r := h + (Quote + e + Quote) + t;
            && |r| == |h| + |e| + 2 + |t|
            && r[..|h|] == h
            && r[|h|] == '"'
            && r[|h| + 1..] == e + (Quote + t)
            && r[|h| + |e| + 2..] == t
  {
    var r := h + (Quote + e + Quote) + t;
    assert r[|h|..] == Quote + e + Quote + t;
    assert (Quote + e + Quote + t)[1..] == e + Quote + t;
    Assoc(e, Quote, t);
  }

  /** Where the level name and the closing brace sit in a record's tail. */
  lemma TailLayout(n: Bytes, f: Bytes)
    ensures var t := LevelKey + n + Quote + f + ObjectEnd;
            && |t| == 10 + |n| + |f| + 2
            && t[..10] == LevelKey
            && t[10..10 + |n|] == n
            && t[10 + |n|] == '"'
            && t[|t| - 1] == '}'
  {
    var t := LevelKey + n + Quote + f + ObjectEnd;
    assert t[..10 + |n|] == LevelKey + n;
  }

  /** The record-building steps of Write (api.go:40-49), on the bytes of the
      logger's view. */
  method BuildRecord(view: Bytes, level: Level, message: Bytes, attrs: seq<Attr>) returns (b: Bytes)
    ensures b == Record(view, level, message, attrs)
  {
    b := view;
    if |b| > 0 && b[|b| - 1] != '{' {
      b := b + [','];
    }
    assert b == view + Separator(NeedsSep(view));
    b := b + MessageKey;
    b := StrAttrToJSON(b, message);
    ghost var y := b;
    b := b + LevelKey;
    b := LevelToBytes(b, level);
    b := b + Quote;
    b := AttrsToJSON(b, attrs);
    b := b + ObjectEnd;
    var n, f := LevelName(level), Fields(true, attrs);
    Assoc(y, LevelKey, n);
    Assoc(y, LevelKey + n, Quote);
    Assoc(y, LevelKey + n + Quote, f);
    Assoc(y, LevelKey + n + Quote + f, ObjectEnd);
  }

  /** A record is the logger's context followed by what Write appends. */
  lemma RecordExtendsView(view: Bytes, level: Level, message: Bytes, attrs: seq<Attr>)
    ensures var r := Record(view, level, message, attrs);
            |r| > |view| && r[..|view|] == view && view + r[|view|..] == r
  {
    var r := Record(view, level, message, attrs);
    var h := RecordHead(view);
    AroundString(h, Escape(message), RecordTail(level, attrs));
    assert r[..|view|] == h[..|view|];
  }

  /** The tail of a record: the level field, whose value reads back as the
      level when the level is one of the three named ones, and the closing
      brace last. */
  lemma TailReadsBack(level: Level, attrs: seq<Attr>)
    ensures var t := RecordTail(level, attrs);
            var n := |LevelName(level)|;
            && |t| > 10 + n
            && t[..10] == LevelKey
            && ParseLevelName(t[10..10 + n]) == (if LevelError <= level <= LevelDebug then Some(level) else None)
            && t[10 + n] == '"'
            && t[|t| - 1] == '}'
  {
    TailLayout(LevelName(level), Fields(true, attrs));
  }

  /** Dropping a prefix of known length. */
  lemma DropPrefix(a: Bytes, b: Bytes, i: nat)
    requires i <= |b|
    ensures (a + b)[|a| + i..] == b[i..]
  {
  }

  /** The message of a record reads back as the string written, and the
      reader stops right where the record's tail begins. */
  lemma RecordMessageReadsBack(view: Bytes, level: Level, message: Bytes, attrs: seq<Attr>)
    requires JsonSafe(message)
    ensures var r := Record(view, level, message, attrs);
            var k := |RecordHead(view)|;
            var j := k + |Escape(message)| + 2;
            && r[k] == '"'
            && ReadString(r[k + 1..]) == Some(Scan(message, j - k - 1))
            && r[j..] == RecordTail(level, attrs)
  {
    var h, q, t := RecordHead(view), Quoted(message), RecordTail(level, attrs);
    Assoc(h, q, t);
    QuotedThen(message, t);
    DropPrefix(h, q + t, 1);
    DropPrefix(h, q + t, |Escape(message)| + 2);
  }

  /** The shared array after an append of r's bytes past a view of it: when
      r fits in the array, r overlays its start and the bytes past r stay as
      they were; otherwise the append went to a fresh array and this one is
      left alone. */
  ghost predicate Overlaid(after: seq<byte>, before: seq<byte>, r: Bytes) {
    if |r| <= |before| then after == r + before[|r|..] else after == before
  }

  /** Extends a view to the bytes r, which begin with what the view holds,
      by appending the rest of r past it. */
  method Extend(s: Slice, r: Bytes) returns (t: Slice)
    requires s.Valid() && s.len <= |r| && r[..s.len] == s.Contents()
    modifies s.arr
    ensures t.Valid() && t.Contents() == r
    ensures s.arr[..s.len] == old(s.arr[..s.len])
    ensures Overlaid(s.arr[..], old(s.arr[..]), r)
    ensures |r| <= s.arr.Length ==> t.arr == s.arr
    ensures |r| > s.arr.Length ==> fresh(t.arr) && unchanged(s.arr)
  {
    ghost var before := s.arr[..];
    t := Append(s, r[s.len..]);
    assert s.Contents() + r[s.len..] == r;
    if |r| <= s.arr.Length {
      assert s.arr[..] == r + before[|r|..];
    }
  }

  /** The first n bytes of an overlaid array: the record's, then the bytes
      that were already past it. */
  lemma OverlaidPrefix(after: seq<byte>, before: seq<byte>, r: Bytes, n: nat)
    requires Overlaid(after, before, r) && |r| <= |before| && n <= |before|
    ensures n <= |r| ==> after[..n] == r[..n]
    ensures |r| < n ==> after[..n] == r + before[|r|..n]
  {
  }

  /** New (api.go:26-32): a logger on a pooled or fresh buffer holding only
      the object opener, with its flag live. */
  method New(sink: Sink, level: Level, pool: BufferPool) returns (l: Logger)
    requires pool.Valid()
    modifies pool, pool.Head()
    ensures pool.Valid()
    ensures l.Valid() && l.View() == ['{']
    ensures l.sink == sink && l.level == level && l.closed.value == 0
    ensures old(pool.entries) != [] ==>
              l.closed == old(pool.entries[0].closed) && pool.entries == old(pool.entries[1..])
    ensures old(pool.entries) == [] ==> fresh(l.closed) && pool.entries == []
    ensures old(pool.entries) != [] && old(pool.entries[0].buffer.arr.Length) > 0 ==>
              l.buffer.arr == old(pool.entries[0].buffer.arr)
    ensures old(pool.entries) != [] ==>
              Overlaid(old(pool.entries[0].buffer.arr)[..], old(pool.entries[0].buffer.arr[..]), ['{'])
    ensures old(pool.entries) == [] ==>
              fresh(l.buffer.arr) && l.buffer.arr.Length == DefaultBufferSize
  {
    var r := pool.Acquire();
    var buffer := Append(r.buffer, ['{']);
    l := Logger(sink, level, buffer, r.closed);
  }

  /** Write (api.go:34-51): nothing happens when the lineage is closed or the
      level is above the threshold; otherwise exactly one record goes to the
      sink. The logger's own view is unchanged either way. */
  method Write(l: Logger, level: Level, message: Bytes, attrs: seq<Attr>)
    requires l.Valid()
    modifies l.buffer.arr, l.sink
    ensures l.buffer.arr[..l.buffer.len] == old(l.View())
    ensures l.closed.value == 0 && level <= l.level ==>
              l.sink.records == old(l.sink.records) + [Record(old(l.View()), level, message, attrs)]
    ensures l.closed.value == 0 && level <= l.level ==>
              Overlaid(l.buffer.arr[..], old(l.buffer.arr[..]), Record(old(l.View()), level, message, attrs))
    ensures !(l.closed.value == 0 && level <= l.level) ==>
              l.sink.records == old(l.sink.records) && unchanged(l.buffer.arr)
  {
    if l.closed.value != 0 || level > l.level {
      return;
    }
    var view := l.View();
    var b := BuildRecord(view, level, message, attrs);
    RecordExtendsView(view, level, message, attrs);
    var buffer := Extend(l.buffer, b);
    l.sink.Write(buffer.Contents());
  }

  /** Error (api.go:53-55): Write at LevelError. */
  method Error(l: Logger, message: Bytes, attrs: seq<Attr>)
    requires l.Valid()
    modifies l.buffer.arr, l.sink
    ensures l.buffer.arr[..l.buffer.len] == old(l.View())
    ensures l.closed.value == 0 && LevelError <= l.level ==>
              l.sink.records == old(l.sink.records) + [Record(old(l.View()), LevelError, message, attrs)]
    ensures l.closed.value == 0 && LevelError <= l.level ==>
              Overlaid(l.buffer.arr[..], old(l.buffer.arr[..]), Record(old(l.View()), LevelError, message, attrs))
    ensures !(l.closed.value == 0 && LevelError <= l.level) ==>
              l.sink.records == old(l.sink.records) && unchanged(l.buffer.arr)
  {
    Write(l, LevelError, message, attrs);
  }

  /** Warning (api.go:57-59): Write at LevelWarning. */
  method Warning(l: Logger, message: Bytes, attrs: seq<Attr>)
    requires l.Valid()
    modifies l.buffer.arr, l.sink
    ensures l.buffer.arr[..l.buffer.len] == old(l.View())
    ensures l.closed.value == 0 && LevelWarning <= l.level ==>
              l.sink.records == old(l.sink.records) + [Record(old(l.View()), LevelWarning, message, attrs)]
    ensures l.closed.value == 0 && LevelWarning <= l.level ==>
              Overlaid(l.buffer.arr[..], old(l.buffer.arr[..]), Record(old(l.View()), LevelWarning, message, attrs))
    ensures !(l.closed.value == 0 && LevelWarning <= l.level) ==>
              l.sink.records == old(l.sink.records) && unchanged(l.buffer.arr)
  {
    Write(l, LevelWarning, message, attrs);
  }

  /** Debug (api.go:61-63): Write at LevelDebug. */
  method Debug(l: Logger, message: Bytes, attrs: seq<Attr>)
    requires l.Valid()
    modifies l.buffer.arr, l.sink
    ensures l.buffer.arr[..l.buffer.len] == old(l.View())
    ensures l.closed.value == 0 && LevelDebug <= l.level ==>
              l.sink.records == old(l.sink.records) + [Record(old(l.View()), LevelDebug, message, attrs)]
    ensures l.closed.value == 0 && LevelDebug <= l.level ==>
              Overlaid(l.buffer.arr[..], old(l.buffer.arr[..]), Record(old(l.View()), LevelDebug, message, attrs))
    ensures !(l.closed.value == 0 && LevelDebug <= l.level) ==>
              l.sink.records == old(l.sink.records) && unchanged(l.buffer.arr)
  {
    Write(l, LevelDebug, message, attrs);
  }

  /** WithAttrs (api.go:65-68): a child logger whose context is the
      caller's extended by the encoded attributes. The caller's bytes are
      untouched; the child shares the caller's array unless the append had
      to grow it. */
  method WithAttrs(l: Logger, attrs: seq<Attr>) returns (c: Logger)
    requires l.Valid()
    modifies l.buffer.arr
    ensures c.Valid() && c.sink == l.sink && c.level == l.level && c.closed == l.closed
    ensures c.View() == old(l.View()) + Fields(NeedsSep(old(l.View())), attrs)
    ensures l.buffer.arr[..l.buffer.len] == old(l.View())
    ensures c.buffer.len == l.buffer.len + |Fields(NeedsSep(old(l.View())), attrs)|
    ensures l.buffer.len + |Fields(NeedsSep(old(l.View())), attrs)| <= l.buffer.arr.Length ==>
              c.buffer.arr == l.buffer.arr
    ensures c.buffer.arr == l.buffer.arr || fresh(c.buffer.arr)
    ensures Overlaid(l.buffer.arr[..], old(l.buffer.arr[..]), c.View())
  {
    var view := l.View();
    var b := AttrsToJSON(view, attrs);
    assert b[..|view|] == view;
    var buffer := Extend(l.buffer, b);
    c := l.(buffer := buffer);
  }

  /** Close (api.go:70-72): the lineage's flag is set and its buffer goes back
      to the pool. A second Close queues the same pair again. */
  method Close(l: Logger, pool: BufferPool)
    requires pool.Valid()
    modifies pool, l.closed
    ensures pool.Valid() && l.closed.value == 1
    ensures old(|pool.entries|) < PoolSize ==>
              pool.entries == old(pool.entries) + [Reusable(Slice(l.buffer.arr, 0), l.closed)]
    ensures old(|pool.entries|) >= PoolSize ==> pool.entries == old(pool.entries)
  {
    pool.Release(Reusable(l.buffer, l.closed));
  }

  // ---------------------------------------------------------------------
  // The message as api.go:44 writes it
  // ---------------------------------------------------------------------

  /** The record with the message appended raw between the quotes, as
      api.go:43-45 does. It agrees with the escaped record whenever the
      message needs no escape. */
  function RecordRawMessage(view: Bytes, level: Level, message: Bytes, attrs: seq<Attr>): (r: Bytes)
    ensures Plain(message) ==> r == Record(view, level, message, attrs)
  {
    PlainIsUnescaped(message);
    RecordHead(view) + (Quote + message + Quote) + RecordTail(level, attrs)
  }

  /** With the raw message, a quote inside it ends the string early: the
      reader gets only the plain bytes before that quote, and the rest of the
      message spills into the object as stray bytes. */
  lemma RawMessageLosesQuote(view: Bytes, level: Level, p: Bytes, q: Bytes, attrs: seq<Attr>)
    requires Plain(p)
    ensures var r := RecordRawMessage(view, level, p + Quote + q, attrs);
            var k := |RecordHead(view)|;
            && r[k] == '"'
            && ReadString(r[k + 1..]) == Some(Scan(p, |p| + 1))
  {
    var h, t, m := RecordHead(view), RecordTail(level, attrs), p + Quote + q;
    AroundString(h, m, t);
    Assoc(p, Quote, q);
    Assoc(p, Quote + q, Quote + t);
    Assoc(Quote, q, Quote + t);
    ReadStopsAtQuote(p, q + (Quote + t));
  }
}
