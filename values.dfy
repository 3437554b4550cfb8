/**
 * Value types shared by the encoder, the buffer pool and the logger API:
 * Go's byte and fixed-width integers, the severity level, and the typed
 * attribute that every log call carries.
 */
module Values {

  /** A Go byte. It is kept as a character below 256 so that JSON punctuation
      can be written as literals ('"', '{', ','). */
  type byte = c: char | c as int < 256 witness '\0'

  /** A Go string or []byte: a sequence of bytes. */
  type Bytes = seq<byte>

  const MinInt64: int := -0x8000_0000_0000_0000
  const MaxInt64: int := 0x7FFF_FFFF_FFFF_FFFF
  const MaxUInt64: int := 0xFFFF_FFFF_FFFF_FFFF

  type Int16 = x: int | -0x8000 <= x <= 0x7FFF
  type Int32 = x: int | -0x8000_0000 <= x <= 0x7FFF_FFFF
  type Int64 = x: int | MinInt64 <= x <= MaxInt64
  type UInt16 = x: int | 0 <= x <= 0xFFFF
  type UInt32 = x: int | 0 <= x <= 0xFFFF_FFFF
  type UInt64 = x: int | 0 <= x <= MaxUInt64

  /** Go's `Level int8`: lower is more severe. */
  type Level = x: int | -0x80 <= x <= 0x7F

  const LevelError: Level := 0
  const LevelWarning: Level := 1
  const LevelDebug: Level := 2

  datatype Option<T> = None | Some(value: T)

  /** An error value as the encoder sees it: nil, or a message with the stack
      trace text that a stack-carrying error supplies. */
  datatype ErrorValue = NilError | Error(message: Bytes, stack: Option<Bytes>)

  /** The fallback text produced by the general float formatter: never empty and
      never ending in the object opener. */
  type FormattedFloat = t: Bytes | |t| > 0 && t[|t| - 1] != '{' witness ['0']

  /** The scaled fractional remainder of a float: |x - trunc(x)| < 1, so after
      scaling by 10000 and truncating it lies strictly within (-10000, 10000). */
  type Frac = f: int | -9999 <= f <= 9999

  /** A float as the encoder consumes it: either a magnitude above MaxInt64,
      rendered by the general formatter, or its truncated integer part and its
      scaled fractional remainder. */
  datatype FloatParts = Huge(text: FormattedFloat) | Split(whole: Int64, frac: Frac)

  /** The tagged value of an attribute: exactly one variant is populated. */
  datatype Value =
    | IntVal(i: Int64)
    | UIntVal(u: UInt64)
    | StrVal(s: Bytes)
    | TimeVal(text: Bytes)
    | ErrVal(err: ErrorValue)
    | FloatVal(f: FloatParts)

  datatype Attr = Attr(name: Bytes, value: Value)

  lemma Assoc(a: Bytes, b: Bytes, c: Bytes)
    ensures a + b + c == a + (b + c)
  {
  }
}
