/**
 * The append-only JSON encoders of log.go. Each encoder takes the bytes
 * written so far and returns them extended; each method is proved against a
 * specification function, and the lemmas relate those functions to the
 * reference reader in JsonRead.
 */
module Encode {
  import opened Values
  import opened JsonRead

  // ---------------------------------------------------------------------
  // Decimal integers (log.go:127-164)
  // ---------------------------------------------------------------------

  function Digit(d: nat): (c: byte)
    requires d < 10
    ensures IsDigit(c) && c as int - '0' as int == d
  {
    (48 + d) as char
  }

  /** The decimal digits of n, most significant first; empty for zero. */
  function Digits(n: nat): Bytes {
    if n == 0 then [] else Digits(n / 10) + [Digit(n % 10)]
  }

  /** The canonical decimal numeral of n. */
  function Decimal(n: nat): Bytes {
    if n == 0 then ['0'] else Digits(n)
  }

  /** The canonical JSON integer for x: a '-' only for negatives. */
  function SignedDecimal(x: int): Bytes {
    if x < 0 then ['-'] + Decimal(-x) else Decimal(x)
  }

  /** What the int64 encoder emits: the canonical form, except that the
      minimum int64, whose negation overflows, yields a lone '-'. */
  function IntText(x: Int64): Bytes {
    if x == MinInt64 then ['-'] else SignedDecimal(x)
  }

  /** Two's-complement wrap-around of an integer into int64. */
  function Wrap64(v: int): (r: Int64)
    ensures (r - v) % 0x1_0000_0000_0000_0000 == 0
    ensures MinInt64 <= v <= MaxInt64 ==> r == v
  {
    (v - MinInt64) % 0x1_0000_0000_0000_0000 + MinInt64
  }

  /** Digits(n) is made of digits and denotes n. */
  lemma {:induction false} DigitsDenote(n: nat)
    ensures AllDigits(Digits(n)) && DigitsValue(Digits(n)) == n
  {
    if n > 0 {
      DigitsDenote(n / 10);
      var ds := Digits(n);
      var init := Digits(n / 10);
      assert ds == init + [Digit(n % 10)];
      assert ds[..|ds| - 1] == init;
      assert DigitsValue(ds) == DigitsValue(init) * 10 + n % 10;
    }
  }

  /** Digits(n) is empty exactly for zero and otherwise has no leading zero. */
  lemma {:induction false} DigitsLead(n: nat)
    ensures n == 0 <==> Digits(n) == []
    ensures n > 0 ==> Digits(n)[0] != '0'
  {
    if n > 0 {
      DigitsLead(n / 10);
      var init := Digits(n / 10);
      assert Digits(n) == init + [Digit(n % 10)];
      if n / 10 == 0 {
        assert Digits(n)[0] == Digit(n % 10);
      } else {
        assert Digits(n)[0] == init[0];
      }
    }
  }

  /** Digits(n) is empty exactly for zero, is made of digits, has no leading
      zero, and denotes n. */
  lemma DigitsRoundTrip(n: nat)
    ensures n == 0 <==> Digits(n) == []
    ensures AllDigits(Digits(n)) && DigitsValue(Digits(n)) == n
    ensures n > 0 ==> Digits(n)[0] != '0'
  {
    DigitsDenote(n);
    DigitsLead(n);
  }

  /** A number below 10^k has at most k digits. */
  lemma {:induction false} DigitsAtMost(n: nat, k: nat)
    requires n < Pow10(k)
    ensures |Digits(n)| <= k
  {
    if n > 0 {
      assert k > 0;
      DigitsAtMost(n / 10, k - 1);
    }
  }

  /** A number in [10^k, 10^(k+1)) has exactly k + 1 digits. */
  lemma {:induction false} DigitsExactly(n: nat, k: nat)
    requires Pow10(k) <= n < Pow10(k + 1)
    ensures |Digits(n)| == k + 1
  {
    if k > 0 {
      DigitsExactly(n / 10, k - 1);
    }
  }

  lemma UInt64HasAtMostTwentyDigits(n: UInt64)
    ensures |Digits(n)| <= 20
  {
    assert Pow10(5) == 100_000;
    assert Pow10(10) == 10_000_000_000;
    assert Pow10(15) == 1_000_000_000_000_000;
    assert Pow10(20) == 100_000_000_000_000_000_000;
    DigitsAtMost(n, 20);
  }

  /** Decimal(n) is canonical and denotes n. */
  lemma DecimalRoundTrip(n: nat)
    ensures Canonical(Decimal(n)) && DigitsValue(Decimal(n)) == n
  {
    DigitsRoundTrip(n);
  }

  /** Every canonical numeral is the Decimal of the number it denotes, so
      Decimal is the one canonical form of each number. */
  lemma {:induction false} CanonicalIsDecimal(s: Bytes)
    requires Canonical(s)
    ensures Decimal(DigitsValue(s)) == s
  {
    var init := s[..|s| - 1];
    var d := s[|s| - 1] as int - '0' as int;
    if |s| > 1 {
      assert init[0] == s[0];
      CanonicalIsDecimal(init);
      var m := DigitsValue(init);
      assert m != 0;
      var n := DigitsValue(s);
      assert n == m * 10 + d;
      assert n / 10 == m && n % 10 == d;
      assert Digits(n) == Digits(m) + [Digit(d)];
      assert s == init + [s[|s| - 1]];
    } else if d != 0 {
      assert DigitsValue(init) == 0;
      assert Digits(d) == Digits(0) + [Digit(d)];
    }
  }

  /** The signed form reads back as the same integer. */
  lemma SignedDecimalRoundTrip(x: int)
    ensures ParseInteger(SignedDecimal(x)) == Some(x)
  {
    if x < 0 {
      var s := SignedDecimal(x);
      assert s[1..] == Decimal(-x);
      DecimalRoundTrip(-x);
    } else {
      DecimalRoundTrip(x);
    }
  }

  /** The int64 encoder's text is canonical and denotes x for every int64
      except the minimum, for which it is a lone '-' that no reader accepts. */
  lemma IntTextReadsBack(x: Int64)
    ensures x != MinInt64 ==> ParseInteger(IntText(x)) == Some(x)
    ensures x == MinInt64 ==> IntText(x) == ['-'] && ParseInteger(IntText(x)) == None
  {
    SignedDecimalRoundTrip(x);
  }

  /** One step of the encoders' digit loops: the last digit of n moves to
      the front of what has been written. */
  lemma DigitsPrepend(n: nat, tail: Bytes)
    requires n > 0
    ensures Digits(n) + tail == Digits(n / 10) + ([Digit(n % 10)] + tail)
    ensures |Digits(n)| == |Digits(n / 10)| + 1
  {
    Assoc(Digits(n / 10), [Digit(n % 10)], tail);
  }

  /** The digit loop both integer encoders run: the digits of n are written
      back to front into a 22-byte scratch array, and the filled tail is
      returned. A non-positive n leaves it empty. */
  method WriteDigits(start: int) returns (ds: Bytes)
    requires start <= MaxUInt64
    ensures ds == if start > 0 then Decimal(start) else []
  {
    var ib := new byte[22];
    var ip := 22;
    var n: nat := if start > 0 then start else 0;
    ghost var m := n;
    UInt64HasAtMostTwentyDigits(m);
    while n > 0
      invariant 0 <= ip <= 22
      invariant Digits(m) == Digits(n) + ib[ip..]
      decreases n
    {
      ghost var tail := ib[ip..];
      DigitsPrepend(n, tail);
      ip := ip - 1;
      ib[ip] := Digit(n % 10);
      assert ib[ip..] == [Digit(n % 10)] + tail;
      n := n / 10;
    }
    ds := ib[ip..];
  }

  method UIntAttrToJSON(b: Bytes, x: UInt64) returns (r: Bytes)
    ensures r == b + Decimal(x)
  {
    if x == 0 {
      r := b + ['0'];
      return;
    }
    var digits := WriteDigits(x);
    r := b + digits;
  }

  /** Negating a negative int64 with wrap-around gives its absolute value,
      except for the minimum, whose negation wraps around to itself. */
  lemma NegationWraps(x: Int64)
    requires x < 0
    ensures Wrap64(x * -1) == if x == MinInt64 then MinInt64 else Abs(x)
  {
    if x == MinInt64 {
      assert x * -1 - MinInt64 == 0x1_0000_0000_0000_0000;
    }
  }

  /** The sign and the digits the int64 encoder writes make up its text. */
  lemma IntTextPieces(x: Int64, start: int, digits: Bytes)
    requires x != 0
    requires start == if x == MinInt64 then MinInt64 else Abs(x)
    requires digits == if start > 0 then Decimal(start) else []
    ensures (if x < 0 then ['-'] else []) + digits == IntText(x)
  {
  }

  method IntAttrToJSON(b: Bytes, x: Int64) returns (r: Bytes)
    ensures r == b + IntText(x)
  {
    if x == 0 {
      r := b + ['0'];
      return;
    }
    var start: int := x;
    var neg := false;
    if x < 0 {
      neg := true;
      NegationWraps(x);
      start := Wrap64(start * -1);
    }
    // Only the wrapped minimum leaves start non-positive, and then no digit
    // is written.
    var digits := WriteDigits(start);
    IntTextPieces(x, start, digits);
    if neg {
      r := b + ['-'];
      Assoc(b, ['-'], digits);
    } else {
      r := b;
      assert [] + digits == digits;
    }
    r := r + digits;
  }

  // ---------------------------------------------------------------------
  // Strings (log.go:120-125, 166-191)
  // ---------------------------------------------------------------------

  /** The three bytes the encoder escapes. A backslash is not among them. */
  predicate IsSpecial(c: byte) { c == '"' || c == '\n' || c == '\t' }

  /** The letter that follows the backslash in an escape: `\"`, `\n`, `\t`. */
  function EscapeLetter(c: byte): byte {
    if c == '\n' then 'n' else if c == '\t' then 't' else c
  }

  function EscapeByte(c: byte): Bytes {
    if IsSpecial(c) then ['\\', EscapeLetter(c)] else [c]
  }

  /** b followed by the escaped form of s, built front to back the way the
      encoder appends it. */
  function AppendEscaped(b: Bytes, s: Bytes): Bytes
    decreases |s|
  {
    if s == [] then b else AppendEscaped(b + EscapeByte(s[0]), s[1..])
  }

  /** The escaped form of s. */
  function Escape(s: Bytes): Bytes {
    AppendEscaped([], s)
  }

  const Quote: Bytes := ['"']

  /** A JSON string literal as the encoder writes it. */
  function Quoted(s: Bytes): Bytes {
    Quote + Escape(s) + Quote
  }

  /** Appending escaped text never touches what was already written. */
  lemma {:induction false} AppendEscapedShift(b: Bytes, s: Bytes)
    ensures AppendEscaped(b, s) == b + Escape(s)
    decreases |s|
  {
    if s != [] {
      var e := EscapeByte(s[0]);
      AppendEscapedShift(b + e, s[1..]);
      AppendEscapedShift(e, s[1..]);
      assert [] + e == e;
    }
  }

  lemma EscapeCons(c: byte, s: Bytes)
    ensures Escape([c] + s) == EscapeByte(c) + Escape(s)
  {
    var t := [c] + s;
    assert t[0] == c && t[1..] == s;
    assert [] + EscapeByte(c) == EscapeByte(c);
    AppendEscapedShift(EscapeByte(c), s);
  }

  lemma {:induction false} AppendEscapedConcat(b: Bytes, x: Bytes, y: Bytes)
    ensures AppendEscaped(b, x + y) == AppendEscaped(AppendEscaped(b, x), y)
    decreases |x|
  {
    if x == [] {
      assert x + y == y;
    } else {
      assert (x + y)[0] == x[0] && (x + y)[1..] == x[1..] + y;
      AppendEscapedConcat(b + EscapeByte(x[0]), x[1..], y);
    }
  }

  /** Escaping works byte by byte: the escape of a concatenation is the
      concatenation of the escapes. */
  lemma EscapeAppend(x: Bytes, y: Bytes)
    ensures Escape(x + y) == Escape(x) + Escape(y)
  {
    AppendEscapedConcat([], x, y);
    AppendEscapedShift(Escape(x), y);
  }

  /** A run of bytes that need no escape is copied verbatim. */
  lemma {:induction false} SkipPlain(r: Bytes, t: Bytes, k: nat)
    requires k <= |t|
    requires forall j :: 0 <= j < k ==> !IsSpecial(t[j])
    ensures AppendEscaped(r, t) == AppendEscaped(r + t[..k], t[k..])
    decreases k
  {
    if k == 0 {
      assert r + t[..0] == r && t[0..] == t;
    } else {
      var c, t' := t[0], t[1..];
      assert EscapeByte(c) == [c];
      assert AppendEscaped(r, t) == AppendEscaped(r + [c], t');
      assert forall j :: 0 <= j < k - 1 ==> t'[j] == t[j + 1];
      SkipPlain(r + [c], t', k - 1);
      assert t[..k] == [c] + t'[..k - 1];
      Assoc(r, [c], t'[..k - 1]);
      assert t'[k - 1..] == t[k..];
    }
  }

  /** One step of the run-copying loop: the ordinary bytes s[l..i] are copied
      verbatim and then the special byte s[i] is escaped. */
  lemma EscapeRun(r: Bytes, s: Bytes, l: nat, i: nat)
    requires l <= i < |s|
    requires forall k :: l <= k < i ==> !IsSpecial(s[k])
    ensures AppendEscaped(r, s[l..]) == AppendEscaped(r + s[l..i] + EscapeByte(s[i]), s[i + 1..])
  {
    var t := s[l..];
    SkipPlain(r, t, i - l);
    assert t[..i - l] == s[l..i];
    var u := t[i - l..];
    assert u == s[i..] && u[0] == s[i] && u[1..] == s[i + 1..];
  }

  /** The loop's last step: the ordinary bytes after the last special one
      are copied verbatim. */
  lemma EscapeLastRun(r: Bytes, s: Bytes, l: nat)
    requires l <= |s|
    requires forall k :: l <= k < |s| ==> !IsSpecial(s[k])
    ensures AppendEscaped(r, s[l..]) == r + s[l..]
  {
    var t := s[l..];
    SkipPlain(r, t, |t|);
    assert t[..|t|] == t && t[|t|..] == [];
  }

  /** Bytes that may stand in a JSON string unescaped are left alone. */
  lemma PlainIsUnescaped(s: Bytes)
    ensures Plain(s) ==> Escape(s) == s
  {
    if Plain(s) {
      EscapeLastRun([], s, 0);
      assert s[0..] == s && [] + s == s;
    }
  }

  method SafeStringAppend(b: Bytes, s: Bytes) returns (r: Bytes)
    ensures r == b + Escape(s)
  {
    if s == [] {
      AppendEscapedShift(b, s);
      return b;
    }
    r := b;
    var l := 0;
    assert s[0..] == s;
    for i := 0 to |s|
      invariant l <= i
      invariant AppendEscaped(r, s[l..]) == AppendEscaped(b, s)
      invariant forall k :: l <= k < i ==> !IsSpecial(s[k])
    {
      var escape: Bytes := [];
      if s[i] == '"' {
        escape := ['\\', '"'];
      } else if s[i] == '\n' {
        escape := ['\\', 'n'];
      } else if s[i] == '\t' {
        escape := ['\\', 't'];
      }
      if escape != [] {
        EscapeRun(r, s, l, i);
        r := r + s[l..i] + escape;
        l := i + 1;
      }
    }
    EscapeLastRun(r, s, l);
    r := r + s[l..];
    AppendEscapedShift(b, s);
  }

  method StrAttrToJSON(b: Bytes, s: Bytes) returns (r: Bytes)
    ensures r == b + Quoted(s)
  {
    r := b + Quote;
    r := SafeStringAppend(r, s);
    r := r + Quote;
  }

  /** Escaping lengthens the input by one byte per escaped byte. */
  lemma {:induction false} EscapeLength(s: Bytes)
    ensures |Escape(s)| == |s| + multiset(s)['"'] + multiset(s)['\n'] + multiset(s)['\t']
  {
    if s != [] {
      var s' := s[1..];
      EscapeLength(s');
      assert s == [s[0]] + s';
      EscapeCons(s[0], s');
      assert multiset(s) == multiset{s[0]} + multiset(s');
    }
  }

  /** Every quote in the escaped text is preceded by a backslash. That alone
      does not keep the quote inside the string: a backslash of the input is
      copied raw, and a reader pairs it with the one added before the quote
      (see BackslashBeforeQuoteClosesString). */
  lemma {:induction false} EscapedQuotesArePreceded(s: Bytes)
    ensures forall i :: 0 <= i < |Escape(s)| && Escape(s)[i] == '"' ==> i > 0 && Escape(s)[i - 1] == '\\'
  {
    if s != [] {
      var s' := s[1..];
      EscapedQuotesArePreceded(s');
      assert s == [s[0]] + s';
      EscapeCons(s[0], s');
      var e := EscapeByte(s[0]);
      var t := Escape(s');
      forall i | 0 <= i < |Escape(s)| && Escape(s)[i] == '"'
        ensures i > 0 && Escape(s)[i - 1] == '\\'
      {
        if i >= |e| {
          assert Escape(s)[i] == t[i - |e|];
          if i - |e| > 0 {
            assert Escape(s)[i - 1] == t[i - |e| - 1];
          }
        }
      }
    }
  }

  /** For backslash-free text without stray control bytes, the escaped text
      followed by a closing quote reads back as exactly the original text,
      ending at that quote. */
  lemma {:induction false} QuotedReadsBack(s: Bytes, tail: Bytes)
    requires JsonSafe(s)
    requires |tail| > 0 && tail[0] == '"'
    ensures ReadString(Escape(s) + tail) == Some(Scan(s, |Escape(s)| + 1))
    decreases |s|
  {
    if s == [] {
      assert Escape(s) + tail == tail;
    } else {
      var c, s' := s[0], s[1..];
      assert s == [c] + s';
      EscapeCons(c, s');
      assert JsonSafe(s');
      QuotedReadsBack(s', tail);
      var t' := Escape(s') + tail;
      var t := Escape(s) + tail;
      var rest := Scan(s', |Escape(s')| + 1);
      assert ReadString(t') == Some(rest);
      assert t == EscapeByte(c) + t';
      if IsSpecial(c) {
        assert t[0] == '\\' && t[2..] == t';
        assert Unescaped(t[1]) == Some(c);
        assert ReadString(t) == Some(Scan([c] + rest.text, rest.used + 2));
      } else {
        assert t[0] == c && t[1..] == t';
        assert c != '"' && c != '\\' && c as int >= 0x20;
        assert ReadString(t) == Some(Scan([c] + rest.text, rest.used + 1));
      }
    }
  }

  /** Where the body of a quoted string sits when more bytes t follow it. */
  lemma QuotedLayout(e: Bytes, t: Bytes)
    ensures var r := Quote + e + Quote + t;
            && r[0] == '"'
            && r[1..] == e + (Quote + t)
            && r[|e| + 2..] == t
  {
    var r := Quote + e + Quote + t;
    assert r[1..] == e + Quote + t;
    Assoc(e, Quote, t);
  }

  /** A quoted string followed by more bytes: a reader gets the string back
      and stops just before those bytes. */
  lemma QuotedThen(s: Bytes, t: Bytes)
    requires JsonSafe(s)
    ensures var r := Quoted(s) + t;
            && r[0] == '"'
            && ReadString(r[1..]) == Some(Scan(s, |Escape(s)| + 1))
            && r[|Escape(s)| + 2..] == t
  {
    QuotedLayout(Escape(s), t);
    QuotedReadsBack(s, Quote + t);
  }

  /** A reader of a JSON string stops at the first quote after plain bytes. */
  lemma {:induction false} ReadStopsAtQuote(p: Bytes, x: Bytes)
    requires Plain(p)
    ensures ReadString(p + (Quote + x)) == Some(Scan(p, |p| + 1))
    decreases |p|
  {
    var t := p + (Quote + x);
    if p == [] {
      assert t == Quote + x;
    } else {
      assert t[0] == p[0] && t[1..] == p[1..] + (Quote + x);
      ReadStopsAtQuote(p[1..], x);
      assert [p[0]] + p[1..] == p;
    }
  }

  /** The backslash is copied verbatim, so escaping is not injective: a
      backslash followed by 'n' and a real newline encode alike, and a reader
      sees a newline. */
  lemma EscapeNotInjective()
    ensures Escape(['\\', 'n']) == Escape(['\n']) == ['\\', 'n']
    ensures ReadString(Escape(['\\', 'n']) + ['"']) == Some(Scan(['\n'], 3))
  {
    EscapeCons('\\', ['n']);
    EscapeCons('n', []);
    EscapeCons('\n', []);
    var t: Bytes := ['\\', 'n', '"'];
    assert t[2..] == ['"'];
    assert ReadString(t[2..]) == Some(Scan([], 1));
    assert Unescaped(t[1]).Some? && Unescaped(t[1]).value == '\n';
    assert ['\n'] + [] == ['\n'];
  }

  /** A backslash before a quote in the input pairs with the backslash the
      escaper adds, so the quote closes the string early: the reader gets a
      lone backslash, and the rest spills out of the string. */
  lemma BackslashBeforeQuoteClosesString()
    ensures Escape(['\\', '"', 'x']) == ['\\', '\\', '"', 'x']
    ensures ReadString(Escape(['\\', '"', 'x']) + ['"']) == Some(Scan(['\\'], 3))
  {
    EscapeCons('\\', ['"', 'x']);
    EscapeCons('"', ['x']);
    EscapeCons('x', []);
    var t: Bytes := ['\\', '\\', '"', 'x', '"'];
    assert Escape(['\\', '"', 'x']) + ['"'] == t;
    assert t[2..] == ['"', 'x', '"'];
    assert ReadString(t[2..]) == Some(Scan([], 1));
    assert Unescaped(t[1]).Some? && Unescaped(t[1]).value == '\\';
    assert ['\\'] + [] == ['\\'];
  }

  /** A trailing backslash escapes the closing quote: the string never ends. */
  lemma TrailingBackslashSwallowsQuote()
    ensures ReadString(Escape(['\\']) + ['"', '}']) == None
  {
    EscapeCons('\\', []);
    var t: Bytes := ['\\', '"', '}'];
    assert Escape(['\\']) + ['"', '}'] == t;
    assert t[2..] == ['}'];
    assert ReadString(t[2..][1..]) == None;
  }

  /** A control byte other than newline and tab is copied raw, which JSON
      forbids inside a string. */
  lemma CarriageReturnIsNotEscaped()
    ensures Escape(['\r']) == ['\r']
    ensures ReadString(Escape(['\r']) + ['"']) == None
  {
    EscapeCons('\r', []);
  }

  // ---------------------------------------------------------------------
  // Levels (log.go:66-76)
  // ---------------------------------------------------------------------

  /** The level a level name in a record stands for. */
  function ParseLevelName(t: Bytes): Option<Level> {
    if t == "ERROR" then Some(LevelError)
    else if t == "WARNING" then Some(LevelWarning)
    else if t == "DEBUG" then Some(LevelDebug)
    else None
  }

  /** The name levelToBytes writes for a level: one of the three defined
      names, read back as the same level, or "UNKNOWN" for any other level. */
  function LevelName(l: Level): (name: Bytes)
    ensures ParseLevelName(name) == if LevelError <= l <= LevelDebug then Some(l) else None
    ensures !(LevelError <= l <= LevelDebug) <==> name == "UNKNOWN"
  {
    if l == LevelError then "ERROR"
    else if l == LevelWarning then "WARNING"
    else if l == LevelDebug then "DEBUG"
    else "UNKNOWN"
  }

  function LevelToBytes(b: Bytes, l: Level): (r: Bytes)
    ensures r == b + LevelName(l)
  {
    if l == LevelError then b + "ERROR"
    else if l == LevelWarning then b + "WARNING"
    else if l == LevelDebug then b + "DEBUG"
    else b + "UNKNOWN"
  }

  // ---------------------------------------------------------------------
  // Errors (log.go:193-207)
  // ---------------------------------------------------------------------

  const StackKey: Bytes := ",\"stack\":"

  /** A nil error is `null`; otherwise the quoted message, then a second
      `"stack"` field when a trace is available. */
  function ErrText(e: ErrorValue): Bytes {
    match e
    case NilError => "null"
    case Error(m, None) => Quoted(m)
    case Error(m, Some(trace)) => Quoted(m) + StackKey + Quoted(trace)
  }

  method ErrAttrToJSON(b: Bytes, e: ErrorValue) returns (r: Bytes)
    ensures r == b + ErrText(e)
  {
    if e.NilError? {
      return b + "null";
    }
    r := StrAttrToJSON(b, e.message);
    if e.stack.Some? {
      r := r + StackKey;
      r := StrAttrToJSON(r, e.stack.value);
      Assoc(b + Quoted(e.message), StackKey, Quoted(e.stack.value));
      Assoc(b, Quoted(e.message), StackKey);
      Assoc(b, Quoted(e.message) + StackKey, Quoted(e.stack.value));
    }
  }

  /** An error's message reads back as the string value, and it is followed
      by the `"stack"` field exactly when a trace is present, whose value
      reads back as the trace. */
  lemma ErrTextReadsBack(m: Bytes, trace: Option<Bytes>, rest: Bytes)
    requires JsonSafe(m) && (trace.Some? ==> JsonSafe(trace.value))
    ensures var t := ErrText(Error(m, trace)) + rest;
            var k := |Escape(m)| + 2;
            && t[0] == '"'
            && ReadString(t[1..]) == Some(Scan(m, k - 1))
            && (trace.None? ==> t[k..] == rest)
            && (trace.Some? ==> t[k..k + 9] == StackKey && t[k + 9] == '"'
                                && ReadString(t[k + 10..]) == Some(Scan(trace.value, |Escape(trace.value)| + 1)))
  {
    match trace
    case None =>
      QuotedThen(m, rest);
    case Some(tr) =>
      var q1, q2 := Quoted(m), Quoted(tr);
      var after := StackKey + (q2 + rest);
      Assoc(q1 + StackKey, q2, rest);
      Assoc(q1, StackKey, q2 + rest);
      QuotedThen(m, after);
      QuotedThen(tr, rest);
      var t := ErrText(Error(m, trace)) + rest;
      var k := |Escape(m)| + 2;
      assert t[k..] == after;
      assert after[9..] == q2 + rest;
      assert t[k + 9..] == q2 + rest;
      assert t[k + 10..] == (q2 + rest)[1..];
  }

  // ---------------------------------------------------------------------
  // Floats (log.go:209-234), from the parts the float conversions produce
  // ---------------------------------------------------------------------

  function Abs(f: int): nat { if f < 0 then -f else f }

  /** The zeros that pad a fraction below 1000 to four digits. */
  function FracPad(f: nat): Bytes {
    if f < 10 then "000" else if f < 100 then "00" else if f < 1000 then "0" else ""
  }

  function FloatText(p: FloatParts): Bytes {
    match p
    case Huge(text) => text
    case Split(whole, frac) => IntText(whole) + ['.'] + FracPad(Abs(frac)) + IntText(Abs(frac))
  }

  method FloatAttrToJSON(b: Bytes, p: FloatParts) returns (r: Bytes)
    ensures r == b + FloatText(p)
  {
    match p
    case Huge(text) =>
      r := b + text;
    case Split(i, f) =>
      var fa := f;
      if fa < 0 {
        fa := fa * -1;
      }
      r := IntAttrToJSON(b, i);
      r := r + ['.'];
      ghost var head := r;
      if fa < 1000 {
        r := r + ['0'];
      }
      if fa < 100 {
        r := r + ['0'];
      }
      if fa < 10 {
        r := r + ['0'];
      }
      assert r == head + FracPad(fa);
      r := IntAttrToJSON(r, fa);
      FloatPieces(b, i, fa);
  }

  lemma FloatPieces(b: Bytes, whole: Int64, fa: nat)
    requires fa <= MaxInt64
    ensures b + IntText(whole) + ['.'] + FracPad(fa) + IntText(fa)
         == b + (IntText(whole) + ['.'] + FracPad(fa) + IntText(fa))
  {
  }

  lemma {:induction false} ZerosDenoteNothing(z: Bytes, d: Bytes)
    requires forall i :: 0 <= i < |z| ==> z[i] == '0'
    requires AllDigits(d)
    ensures AllDigits(z + d) && DigitsValue(z + d) == DigitsValue(d)
    decreases |z| + |d|
  {
    if d == [] {
      assert z + d == z;
      if z != [] {
        ZerosDenoteNothing(z[..|z| - 1], []);
        assert z[..|z| - 1] + [] == z[..|z| - 1];
      }
    } else {
      var d' := d[..|d| - 1];
      ZerosDenoteNothing(z, d');
      assert (z + d)[..|z + d| - 1] == z + d';
    }
  }

  /** The fraction is always written as exactly four digits that denote the
      scaled remainder, zero-padded on the left. */
  lemma FractionHasFourDigits(f: Frac)
    ensures var t := FracPad(Abs(f)) + IntText(Abs(f));
            |t| == 4 && AllDigits(t) && DigitsValue(t) == Abs(f)
  {
    var a := Abs(f);
    DecimalRoundTrip(a);
    assert IntText(a) == Decimal(a);
    assert Pow10(1) == 10 && Pow10(2) == 100 && Pow10(3) == 1000 && Pow10(4) == 10000;
    if a == 0 {
    } else if a < 10 {
      DigitsExactly(a, 0);
    } else if a < 100 {
      DigitsExactly(a, 1);
    } else if a < 1000 {
      DigitsExactly(a, 2);
    } else {
      DigitsExactly(a, 3);
    }
    ZerosDenoteNothing(FracPad(a), Decimal(a));
  }

  /** The sign of a value between -1 and 0 is lost: its integer part is 0
      and the fraction is written by absolute value, so -0.5 and 0.5 come out
      alike. */
  lemma FloatSignLost(f: Frac)
    ensures FloatText(Split(0, -f)) == FloatText(Split(0, f))
    ensures FloatText(Split(0, f)) == "0." + FracPad(Abs(f)) + Decimal(Abs(f))
  {
  }

  // ---------------------------------------------------------------------
  // Attributes (log.go:78-118)
  // ---------------------------------------------------------------------

  function ValueText(v: Value): Bytes {
    match v
    case IntVal(i) => IntText(i)
    case UIntVal(u) => Decimal(u)
    case StrVal(s) => Quoted(s)
    case TimeVal(text) => Quoted(text)
    case ErrVal(e) => ErrText(e)
    case FloatVal(p) => FloatText(p)
  }

  /** `"name":value`; the name is written without escaping. */
  function FieldText(a: Attr): Bytes {
    ['"'] + a.name + ['"', ':'] + ValueText(a.value)
  }

  function Separator(needSep: bool): Bytes {
    if needSep then [','] else []
  }

  /** Whether text appended after b needs a leading comma: b holds something
      and does not end with the object opener. */
  predicate NeedsSep(b: Bytes) {
    |b| > 0 && b[|b| - 1] != '{'
  }

  /** b followed by the fields of attrs, in order, each after a comma except
      the first, which gets one only when needSep says so. */
  function AppendFields(b: Bytes, needSep: bool, attrs: seq<Attr>): Bytes
    decreases |attrs|
  {
    if attrs == [] then b
    else
      var withSep := if needSep then b + [','] else b;
      AppendFields(withSep + FieldText(attrs[0]), true, attrs[1..])
  }

  /** The bytes the fields of attrs amount to. */
  function Fields(needSep: bool, attrs: seq<Attr>): Bytes {
    AppendFields([], needSep, attrs)
  }

  method AttrToJSON(b: Bytes, a: Attr) returns (r: Bytes)
    ensures r == b + ValueText(a.value)
  {
    match a.value
    case StrVal(s) =>
      r := StrAttrToJSON(b, s);
    case IntVal(i) =>
      r := IntAttrToJSON(b, i);
    case UIntVal(u) =>
      r := UIntAttrToJSON(b, u);
    case TimeVal(text) =>
      r := StrAttrToJSON(b, text);
    case ErrVal(e) =>
      r := ErrAttrToJSON(b, e);
    case FloatVal(p) =>
      r := FloatAttrToJSON(b, p);
  }

  lemma FieldPieces(x: Bytes, a: Attr)
    ensures x + ['"'] + a.name + ['"', ':'] + ValueText(a.value) == x + FieldText(a)
  {
  }

  /** The name is written without escaping: a quote inside it ends the key
      early, and a reader gets only the plain bytes before that quote. */
  lemma NameIsNotEscaped(p: Bytes, q: Bytes, v: Value)
    requires Plain(p)
    ensures var f := FieldText(Attr(p + Quote + q, v));
            f[0] == '"' && ReadString(f[1..]) == Some(Scan(p, |p| + 1))
  {
    var name, rest := p + Quote + q, ['"', ':'] + ValueText(v);
    var f := FieldText(Attr(name, v));
    Assoc(['"'] + name, ['"', ':'], ValueText(v));
    Assoc(['"'], name, rest);
    assert f[1..] == name + rest;
    Assoc(p, Quote, q);
    Assoc(p, Quote + q, rest);
    Assoc(Quote, q, rest);
    ReadStopsAtQuote(p, q + rest);
  }

  method AttrsToJSON(b: Bytes, attrs: seq<Attr>) returns (r: Bytes)
    ensures r == b + Fields(NeedsSep(b), attrs)
  {
    var needSep := |b| > 0 && b[|b| - 1] != '{';
    r := b;
    assert attrs[0..] == attrs;
    for i := 0 to |attrs|
      invariant AppendFields(r, needSep, attrs[i..]) == AppendFields(b, NeedsSep(b), attrs)
      invariant needSep == (NeedsSep(b) || i > 0)
    {
      assert attrs[i..][0] == attrs[i] && attrs[i..][1..] == attrs[i + 1..];
      ghost var withSep := if needSep then r + [','] else r;
      if needSep {
        r := r + [','];
      }
      needSep := true;
      r := r + ['"'];
      r := r + attrs[i].name;
      r := r + ['"', ':'];
      r := AttrToJSON(r, attrs[i]);
      FieldPieces(withSep, attrs[i]);
    }
    assert attrs[|attrs|..] == [];
    AppendFieldsShift(b, NeedsSep(b), attrs);
  }

  /** Appending fields never touches what was already written. */
  lemma {:induction false} AppendFieldsShift(b: Bytes, needSep: bool, attrs: seq<Attr>)
    ensures AppendFields(b, needSep, attrs) == b + Fields(needSep, attrs)
    decreases |attrs|
  {
    if attrs != [] {
      var ft := FieldText(attrs[0]);
      var f := Separator(needSep) + ft;
      var rest := attrs[1..];
      var fs := Fields(true, rest);
      if needSep {
        Assoc(b, [','], ft);
        assert [] + [','] == [','];
      } else {
        assert b + [] == b && [] + ft == ft;
      }
      AppendFieldsShift(b + f, true, rest);
      AppendFieldsShift(f, true, rest);
      Assoc(b, f, fs);
    }
  }

  /** The first attribute gets a comma only when needSep holds; every later
      one gets one. */
  lemma FieldsCons(needSep: bool, a: Attr, rest: seq<Attr>)
    ensures Fields(needSep, [a] + rest) == Separator(needSep) + FieldText(a) + Fields(true, rest)
  {
    var attrs := [a] + rest;
    assert attrs[0] == a && attrs[1..] == rest;
    var f := Separator(needSep) + FieldText(a);
    var first := if needSep then [] + [','] else [];
    assert first + FieldText(a) == f;
    AppendFieldsShift(f, true, rest);
  }

  lemma {:induction false} AppendFieldsConcat(b: Bytes, needSep: bool, xs: seq<Attr>, ys: seq<Attr>)
    ensures AppendFields(b, needSep, xs + ys) == AppendFields(AppendFields(b, needSep, xs), needSep || |xs| > 0, ys)
    decreases |xs|
  {
    if xs == [] {
      assert xs + ys == ys;
    } else {
      assert (xs + ys)[0] == xs[0] && (xs + ys)[1..] == xs[1..] + ys;
      var withSep := if needSep then b + [','] else b;
      AppendFieldsConcat(withSep + FieldText(xs[0]), true, xs[1..], ys);
    }
  }

  /** Splitting the attribute list: the fields of xs + ys are those of xs
      followed by those of ys, which need a comma when anything came before. */
  lemma FieldsAppend(needSep: bool, xs: seq<Attr>, ys: seq<Attr>)
    ensures Fields(needSep, xs + ys) == Fields(needSep, xs) + Fields(needSep || |xs| > 0, ys)
  {
    AppendFieldsConcat([], needSep, xs, ys);
    AppendFieldsShift(Fields(needSep, xs), needSep || |xs| > 0, ys);
  }

  /** No attributes: nothing is written. */
  lemma FieldsNone(b: Bytes)
    ensures b + Fields(NeedsSep(b), []) == b
  {
  }

  lemma DecimalEndsInDigit(n: nat)
    ensures |Decimal(n)| > 0 && IsDigit(Decimal(n)[|Decimal(n)| - 1])
  {
  }

  /** Every value's text is non-empty and does not end with the object
      opener, so whatever follows an attribute is preceded by a comma. */
  lemma ValueTextNeverOpens(v: Value)
    ensures |ValueText(v)| > 0 && ValueText(v)[|ValueText(v)| - 1] != '{'
  {
    match v
    case IntVal(i) =>
      if i != MinInt64 {
        DecimalEndsInDigit(Abs(i));
      }
    case UIntVal(u) =>
      DecimalEndsInDigit(u);
    case StrVal(s) =>
    case TimeVal(t) =>
    case ErrVal(e) =>
    case FloatVal(p) =>
      if p.Split? {
        DecimalEndsInDigit(Abs(p.frac));
      }
  }

  /** After at least one attribute, the next appended field needs a comma. */
  lemma {:induction false} FieldsLeaveSeparatorNeeded(b: Bytes, needSep: bool, attrs: seq<Attr>)
    requires attrs != []
    ensures NeedsSep(AppendFields(b, needSep, attrs))
    decreases |attrs|
  {
    var withSep := if needSep then b + [','] else b;
    var next := withSep + FieldText(attrs[0]);
    if |attrs| == 1 {
      assert attrs[1..] == [];
      ValueTextNeverOpens(attrs[0].value);
      var f := FieldText(attrs[0]);
      var v := ValueText(attrs[0].value);
      assert f[|f| - 1] == v[|v| - 1];
    } else {
      FieldsLeaveSeparatorNeeded(next, true, attrs[1..]);
    }
  }
}
