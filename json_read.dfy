/**
 * Reference definitions of how a JSON reader interprets what the encoder
 * writes: decimal numbers and string bodies (RFC 8259, sections 6 and 7).
 * They are independent of the encoder and serve as the partner against which
 * its output is checked.
 */
module JsonRead {
  import opened Values

  predicate IsDigit(c: byte) { '0' <= c <= '9' }

  predicate AllDigits(s: Bytes) { forall i :: 0 <= i < |s| ==> IsDigit(s[i]) }

  function Pow10(k: nat): (r: nat)
    ensures r >= 1
  {
    if k == 0 then 1 else 10 * Pow10(k - 1)
  }

  /** The number a string of decimal digits denotes. */
  function DigitsValue(s: Bytes): nat
    requires AllDigits(s)
  {
    if s == [] then 0 else DigitsValue(s[..|s| - 1]) * 10 + (s[|s| - 1] as int - '0' as int)
  }

  /** A canonical decimal numeral: digits only, and no leading zero unless it is "0". */
  predicate Canonical(s: Bytes) {
    |s| > 0 && AllDigits(s) && (s[0] == '0' ==> |s| == 1)
  }

  /** The integer a JSON number without fraction or exponent denotes, when it
      is one. `-0`, which RFC 8259 section 6 admits, is rejected here: the
      encoders never write it, so a read-back through this parser also shows
      that zero is written without a sign. */
  function ParseInteger(s: Bytes): Option<int> {
    if |s| > 0 && s[0] == '-' then
      if Canonical(s[1..]) && s[1..] != ['0'] then Some(0 - DigitsValue(s[1..]) as int) else None
    else if Canonical(s) then Some(DigitsValue(s))
    else None
  }

  /** A string body that has been read: the decoded bytes and how many input
      bytes were used, the closing quote included. */
  datatype Scan = Scan(text: Bytes, used: nat)

  /** The byte a two-character escape `\c` stands for. The six-character
      `\uXXXX` form is not read here. */
  function Unescaped(c: byte): Option<byte> {
    if c == '"' then Some('"')
    else if c == '\\' then Some('\\')
    else if c == '/' then Some('/')
    else if c == 'b' then Some(8 as char)
    else if c == 'f' then Some(12 as char)
    else if c == 'n' then Some('\n')
    else if c == 'r' then Some('\r')
    else if c == 't' then Some('\t')
    else None
  }

  /** Reads a JSON string body that starts just after its opening quote, up to
      and including the first quote that is not part of an escape. Fails on a
      raw control character, an unknown escape or a missing closing quote. */
  function ReadString(t: Bytes): Option<Scan>
    decreases |t|
  {
    if t == [] then None
    else if t[0] == '"' then Some(Scan([], 1))
    else if t[0] == '\\' then
      if |t| < 2 then None
      else match Unescaped(t[1])
        case None => None
        case Some(c) =>
          match ReadString(t[2..])
          case None => None
          case Some(rest) => Some(Scan([c] + rest.text, rest.used + 2))
    else if (t[0] as int) < 0x20 then None
    else
      match ReadString(t[1..])
      case None => None
      case Some(rest) => Some(Scan([t[0]] + rest.text, rest.used + 1))
  }

  /** Bytes that the encoder's escaping carries into a JSON string faithfully:
      no backslash, and no control character other than newline and tab. */
  predicate JsonSafe(s: Bytes) {
    forall i :: 0 <= i < |s| ==> s[i] != '\\' && (s[i] as int >= 0x20 || s[i] == '\n' || s[i] == '\t')
  }

  /** Bytes that may stand inside a JSON string without any escaping. */
  predicate Plain(s: Bytes) {
    forall i :: 0 <= i < |s| ==> s[i] != '\\' && s[i] != '"' && s[i] as int >= 0x20
  }
}
