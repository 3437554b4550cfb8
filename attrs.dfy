/**
 * The attribute constructors of attrs.go. Each builds one typed attribute;
 * the narrower integer widths are widened to 64 bits without changing the
 * number, and the lemmas below follow each constructor through the encoder.
 */
module Attrs {
  import opened Values
  import opened JsonRead
  import opened Encode

  /** Go's `int`, taken as 64 bits wide. */
  function Int(name: Bytes, i: Int64): (a: Attr)
    ensures a.name == name && a.value.IntVal? && a.value.i == i
  {
    Attr(name, IntVal(i))
  }

  function Int16(name: Bytes, i: Int16): (a: Attr)
    ensures a.name == name && a.value.IntVal? && a.value.i == i
  {
    Attr(name, IntVal(i as Int64))
  }

  function Int32(name: Bytes, i: Int32): (a: Attr)
    ensures a.name == name && a.value.IntVal? && a.value.i == i
  {
    Attr(name, IntVal(i as Int64))
  }

  function Int64(name: Bytes, i: Int64): (a: Attr)
    ensures a.name == name && a.value.IntVal? && a.value.i == i
  {
    Attr(name, IntVal(i))
  }

  /** Go's `uint`, taken as 64 bits wide. */
  function UInt(name: Bytes, i: UInt64): (a: Attr)
    ensures a.name == name && a.value.UIntVal? && a.value.u == i
  {
    Attr(name, UIntVal(i))
  }

  function UInt16(name: Bytes, i: UInt16): (a: Attr)
    ensures a.name == name && a.value.UIntVal? && a.value.u == i
  {
    Attr(name, UIntVal(i as UInt64))
  }

  function UInt32(name: Bytes, i: UInt32): (a: Attr)
    ensures a.name == name && a.value.UIntVal? && a.value.u == i
  {
    Attr(name, UIntVal(i as UInt64))
  }

  function UInt64(name: Bytes, i: UInt64): (a: Attr)
    ensures a.name == name && a.value.UIntVal? && a.value.u == i
  {
    Attr(name, UIntVal(i))
  }

  function String(name: Bytes, s: Bytes): (a: Attr)
    ensures a.name == name && a.value == StrVal(s)
  {
    Attr(name, StrVal(s))
  }

  /** The time is carried as the text its String method renders. */
  function DateTime(name: Bytes, text: Bytes): (a: Attr)
    ensures a.name == name && a.value == TimeVal(text)
  {
    Attr(name, TimeVal(text))
  }

  /** An error attribute is always named "error", nil errors included. */
  function Err(e: ErrorValue): (a: Attr)
    ensures a.name == "error" && a.value == ErrVal(e)
  {
    Attr("error", ErrVal(e))
  }

  /** A 16- or 32-bit integer never reaches the minimum int64, so its value
      is always written as the canonical decimal of the number. */
  lemma NarrowIntsReadBack(name: Bytes, i: Int16, j: Int32)
    ensures ParseInteger(ValueText(Int16(name, i).value)) == Some(i as int)
    ensures ParseInteger(ValueText(Int32(name, j).value)) == Some(j as int)
  {
    IntTextReadsBack(i as Int64);
    IntTextReadsBack(j as Int64);
  }

  /** Only the one int64 value whose negation overflows is written wrongly. */
  lemma Int64ReadsBack(name: Bytes, i: Int64)
    ensures ParseInteger(ValueText(Int64(name, i).value)) == if i == MinInt64 then None else Some(i)
  {
    IntTextReadsBack(i);
  }

  /** Every unsigned value is written as the canonical decimal of the number. */
  lemma UIntsReadBack(name: Bytes, i: UInt16, j: UInt32, k: UInt64)
    ensures ParseInteger(ValueText(UInt16(name, i).value)) == Some(i as int)
    ensures ParseInteger(ValueText(UInt32(name, j).value)) == Some(j as int)
    ensures ParseInteger(ValueText(UInt64(name, k).value)) == Some(k as int)
  {
    SignedDecimalRoundTrip(i);
    SignedDecimalRoundTrip(j);
    SignedDecimalRoundTrip(k);
  }

  /** A string or time attribute written into a record reads back as its
      payload, provided the payload holds no backslash or stray control byte. */
  lemma TextAttrsReadBack(name: Bytes, s: Bytes)
    requires JsonSafe(s)
    ensures var t := ValueText(String(name, s).value);
            t[0] == '"' && ReadString(t[1..]) == Some(Scan(s, |t| - 1))
    ensures ValueText(DateTime(name, s).value) == ValueText(String(name, s).value)
  {
    var t := Quoted(s);
    assert t[1..] == Escape(s) + ['"'];
    QuotedReadsBack(s, ['"']);
  }
}
