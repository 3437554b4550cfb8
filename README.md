# gology, modelled in Dafny

gology is a small structured logger for Go. It emits one JSON object per
record. Each record holds a `"message"`, a `"level"` and typed attributes.
It keeps its cost down in three ways:

- it appends bytes straight into a reusable buffer instead of building
  values first;
- it recycles buffers through a bounded pool;
- branching a logger (`WithAttrs`) gives a child that shares the parent's
  backing array and appends its context past the parent's view.

This project models three parts of it:

- the append-only JSON encoders of `log.go` (integers, strings, levels,
  errors, floats, attribute lists);
- the buffer pool of `log.go:14-58`, a bounded FIFO of (buffer, closed flag)
  pairs;
- the logger of `api.go`, together with the attribute constructors of
  `attrs.go`.

The model is organised as follows:

- `values.dfy`: the value types. Bytes are `seq<byte>`, Go's fixed-width
  integers are subset types, and there are levels, attribute values and
  attributes.
- `json_read.dfy`: an independent reference reader. It parses a decimal
  integer and reads back a JSON string body, escapes included. The
  encoders are proved against it.
- `encode.dfy`: each encoder is a method that appends to the bytes written
  so far, like the Go functions. Each is proved equal to `b + Text(x)` for a
  specification function `Text`. Lemmas tie those functions to the reader:
  integers read back as the same number, safe strings read back as the same
  string, and level names read back as the same level. Other lemmas cover
  lengths, splitting and separators.
- `shared.dfy`: a Go slice as (backing array, length). `Append` models Go's
  `append`: it writes in place when the capacity suffices, and otherwise
  allocates a fresh array and leaves the old one alone. This file also
  holds the shared `closed` cell and the sink.
- `pool.dfy`: the pool as a class whose `entries` sequence is the channel
  contents in order.
- `attrs.dfy`: the constructors, with read-back lemmas per integer width.
- `api.dfy`: `Logger` is a value (sink, level, slice view, flag), as in Go.
  `Write` and `WithAttrs` append into the shared array past the view. Their
  contracts state the exact record sent to the sink, the child's exact view,
  and that the caller's own bytes never change.
- `scenarios.dfy`: whole sessions taken from `log_test.go`, and four hazards
  that follow from the sharing.

The source files disagree in places. `api.go` as given declares a `Logger`
(`api.go:5-11`) without the pooled `reusable`/`closed` fields, and its
`Write` (`api.go:34-37`) tests only the level. `log.go:22-58` builds loggers
from pooled (buffer, flag) pairs and sets the flag on release, and
`log_test.go:430-437` requires that nothing is written after `Close`. The
model follows the pooled variant: `Api.Write` also returns early when the
flag is set.

The model keeps several defects of the encoders as written, and a lemma
exhibits each one:

- the minimum int64 is written as a lone `-` (`Encode.IntTextReadsBack`);
- a backslash is copied unescaped, so escaping is not injective and a
  trailing backslash swallows the closing quote, and a backslash before a
  quote lets that quote close the string early
  (`Encode.EscapeNotInjective`, `Encode.TrailingBackslashSwallowsQuote`,
  `Encode.BackslashBeforeQuoteClosesString`);
- a carriage return is passed through raw, so no JSON reader accepts it
  (`Encode.CarriageReturnIsNotEscaped`);
- the sign of a float between -1 and 0 is lost (`Encode.FloatSignLost`);
- attribute names are written without escaping (`Encode.NameIsNotEscaped`).

The read-back lemmas therefore require `JsonSafe` text: no backslash, and no
control byte other than newline and tab.

Four more hazards come from sharing buffers and flags between loggers:

- a second `Close` queues the same pair twice (`Scenarios.DoubleClose`);
- `Acquire` resets the flag, so a logger kept after `Close` comes back to
  life (`Scenarios.StaleLoggerRevives`);
- two children of one logger overwrite each other's context
  (`Scenarios.SiblingOverwrite`);
- a parent that writes after making a child writes its record over the
  child's context, so the child's next record opens with the start of the
  parent's record (`Scenarios.ParentOverwritesChild`).

## Model

| member | source | states |
|---|---|---|
| Encode.Wrap64 | log.go:136 | the result is the int64 congruent to the argument modulo 2^64, and equals it when it is already in range |
| Encode.NegationWraps | log.go:134-137 | negating a negative int64 gives its absolute value, except the minimum, whose negation wraps around to the minimum itself |
| Encode.IntTextPieces | log.go:138-148 | the sign and the digits the encoder writes together make up the int64 text, and the wrapped minimum contributes no digit |
| Encode.DigitsDenote | log.go:140-143 | the digits the loop produces are all decimal digits and denote the number |
| Encode.DigitsLead | log.go:140-143 | the digit string is empty exactly for zero and otherwise has no leading '0' |
| Encode.DigitsRoundTrip | log.go:140-143 | the digits of n are canonical, denote n and are empty only for zero |
| Encode.DigitsAtMost | log.go:138-140 | a number below 10^k has at most k digits |
| Encode.DigitsExactly | log.go:138-140 | a number in [10^k, 10^(k+1)) has exactly k+1 digits |
| Encode.UInt64HasAtMostTwentyDigits | log.go:157-158 | every uint64 has at most 20 digits, so the 22-byte scratch array never overflows |
| Encode.DecimalRoundTrip | log.go:151-164 | the unsigned text is canonical and reads back as the number |
| Encode.CanonicalIsDecimal | log.go:151-164 | every canonical numeral is the text of the number it denotes, so each number has one text |
| Encode.SignedDecimalRoundTrip | log.go:127-149 | the signed text reads back as the same integer, '-' only for negatives |
| Encode.IntTextReadsBack | log.go:127-149 | the int64 text reads back as the number for every int64 except the minimum, which is written as a lone '-' that no reader accepts |
| Encode.DigitsPrepend | log.go:140-143 | one loop step puts the last digit of n in front of what was written and leaves the digits of n/10 |
| Encode.WriteDigits | log.go:138-143 | the digit loop returns exactly the canonical decimal of a positive start, and nothing for a non-positive one |
| Encode.UIntAttrToJSON | log.go:151-164 | appends the canonical decimal of the value, '0' for zero, and keeps the earlier bytes |
| Encode.IntAttrToJSON | log.go:127-149 | appends the int64 text, with the minimum's negation wrapping around as in Go |
| Encode.AppendEscapedShift | log.go:166-191 | escaping onto b leaves b as it was and appends the escaped form |
| Encode.EscapeCons | log.go:171-189 | the escape of a string is the first byte's escape followed by the rest's |
| Encode.AppendEscapedConcat | log.go:171-189 | escaping s + t onto b is escaping t after escaping s |
| Encode.EscapeAppend | log.go:171-189 | the escape of a concatenation is the concatenation of the escapes |
| Encode.SkipPlain | log.go:171-189 | a run of bytes needing no escape is copied unchanged |
| Encode.EscapeRun | log.go:174-187 | one loop step copies the plain run s[l..i] and then the escape of s[i] |
| Encode.EscapeLastRun | log.go:190 | the plain bytes after the last escaped one are copied unchanged |
| Encode.SafeStringAppend | log.go:166-191 | appends the escaped form of s: quote, newline and tab become two-byte escapes, every other byte is copied |
| Encode.StrAttrToJSON | log.go:120-125 | appends the escaped string between two quotes |
| Encode.EscapeLength | log.go:174-187 | the escaped form is longer by exactly the number of quotes, newlines and tabs |
| Encode.EscapedQuotesArePreceded | log.go:174-177 | every quote in the escaped form is preceded by a backslash |
| Encode.BackslashBeforeQuoteClosesString | log.go:172-190 | a backslash before a quote is copied raw and pairs with the backslash added before the quote, so the quote closes the string and a reader gets a lone backslash |
| Encode.PlainIsUnescaped | log.go:166-191 | bytes with no quote, backslash or control character are copied unchanged |
| Encode.QuotedReadsBack | log.go:120-125 | for safe text a JSON reader gets the original string back and stops at the closing quote |
| Encode.QuotedLayout | log.go:120-125 | where the body and closing quote of a quoted string sit when more bytes follow |
| Encode.QuotedThen | log.go:120-125 | a quoted safe string followed by more bytes reads back as the string, and the reader stops just before those bytes |
| Encode.EscapeNotInjective | log.go:172-188 | the two-byte input backslash-n and a newline escape to the same bytes, and a reader gets a newline back |
| Encode.TrailingBackslashSwallowsQuote | log.go:172-190 | a trailing backslash escapes the closing quote, so the string never ends |
| Encode.CarriageReturnIsNotEscaped | log.go:172-188 | a carriage return is copied raw, and a JSON reader rejects the string |
| Encode.LevelName | log.go:66-76 | the three named levels are written as names that read back as the same level; every other level is written as "UNKNOWN" |
| Encode.LevelToBytes | log.go:66-76 | appends the level's name to b |
| Encode.ErrAttrToJSON | log.go:193-207 | appends `null` for a nil error, otherwise the quoted message and, when a trace exists, a `"stack"` field holding it |
| Encode.ErrTextReadsBack | log.go:193-207 | the message reads back; the `"stack"` key follows exactly when a trace exists, and its value reads back as the trace |
| Encode.FloatAttrToJSON | log.go:209-234 | appends the fallback text for huge values, otherwise the integer part, a '.', zero padding and the fraction |
| Encode.ZerosDenoteNothing | log.go:223-231 | left padding with zeros keeps a numeral all digits and does not change its value |
| Encode.FractionHasFourDigits | log.go:216-232 | the fraction is always exactly four digits and denotes the absolute scaled remainder |
| Encode.FloatSignLost | log.go:215-221 | a value between -1 and 0 is written like its absolute value, because the integer part is 0 and the fraction is taken by absolute value |
| Encode.AttrToJSON | log.go:93-118 | appends the value text of the attribute's kind; a time is written as its quoted text |
| Encode.AttrsToJSON | log.go:78-91 | appends the fields in order, separated by commas, with a leading comma exactly when b is non-empty and does not end with '{' |
| Encode.AppendFieldsShift | log.go:78-91 | appending fields leaves the earlier bytes as they were |
| Encode.FieldsCons | log.go:80-89 | the first field gets a comma only when one is needed, and every later field gets one |
| Encode.AppendFieldsConcat | log.go:78-91 | appending xs + ys is appending ys after xs, with a comma before ys when anything came before |
| Encode.FieldsAppend | log.go:78-91 | the fields of xs + ys are those of xs followed by those of ys |
| Encode.FieldsNone | log.go:78-91 | no attributes append nothing |
| Encode.DecimalEndsInDigit | log.go:140-148 | a decimal text is non-empty and ends in a digit |
| Encode.ValueTextNeverOpens | log.go:93-118 | every value's text is non-empty and does not end with '{' |
| Encode.FieldsLeaveSeparatorNeeded | log.go:79-84 | after at least one field the next one needs a comma |
| Shared.Append | api.go:41-49 | Go's append: the view's contents are extended by x; in place when the capacity suffices, where x overlays the array just past the view and every other byte keeps its value; otherwise into a fresh, larger array with the old one unchanged |
| Shared.Flag.constructor | log.go:27 | a new closed cell holds 0 |
| Shared.Sink.constructor | log.go:60-64 | a new sink has received nothing |
| Shared.Sink.Write | log.go:60-64 | the sink receives exactly one more byte string |
| Pool.NewReusable | log.go:22-30 | a fresh empty buffer of capacity 1024 with a fresh flag at 0 |
| Pool.BufferPool.constructor | log.go:20 | the pool starts empty |
| Pool.BufferPool.Acquire | log.go:32-44 | takes the oldest pair and resets its flag to 0, leaving its buffer's bytes alone, or allocates a fresh pair when the pool is empty; the pool stays within 100 entries, all of length 0 |
| Pool.BufferPool.Release | log.go:46-58 | sets the flag to 1 and queues the truncated pair at the tail, or drops it when 100 are queued; nothing checks whether the pair is already queued |
| Attrs.Int | attrs.go:5-7 | an int attribute with that name and value |
| Attrs.Int16 | attrs.go:9-11 | an int attribute holding the value widened without change |
| Attrs.Int32 | attrs.go:13-15 | an int attribute holding the value widened without change |
| Attrs.Int64 | attrs.go:17-19 | an int attribute with that name and value |
| Attrs.UInt | attrs.go:21-23 | an unsigned attribute with that name and value |
| Attrs.UInt16 | attrs.go:25-27 | an unsigned attribute holding the value widened without change |
| Attrs.UInt32 | attrs.go:29-31 | an unsigned attribute holding the value widened without change |
| Attrs.UInt64 | attrs.go:33-35 | an unsigned attribute with that name and value |
| Attrs.String | attrs.go:37-39 | a string attribute with that name and text |
| Attrs.DateTime | attrs.go:41-43 | a time attribute carrying the time's rendered text |
| Attrs.Err | attrs.go:45-47 | an error attribute, always named "error" |
| Attrs.NarrowIntsReadBack | attrs.go:9-15 | 16- and 32-bit integers always read back as the same number |
| Attrs.Int64ReadsBack | attrs.go:17-19 | an int64 reads back as itself except the minimum, which does not read back |
| Attrs.UIntsReadBack | attrs.go:25-35 | unsigned values of every width read back as the same number |
| Attrs.TextAttrsReadBack | attrs.go:37-43 | safe string and time text reads back unchanged, and both kinds are written alike |
| Api.AroundString | api.go:43-45 | where a quoted string sits between a record's head and tail |
| Api.TailLayout | api.go:45-49 | where the level name, its closing quote and the final '}' sit in a record's tail |
| Api.BuildRecord | api.go:38-49 | builds exactly the record: the context, a comma when the context holds a field, the message field, the level field, the call's attributes and '}' |
| Api.RecordExtendsView | api.go:39-49 | a record starts with the logger's context and is longer than it |
| Api.TailReadsBack | api.go:45-49 | the level field reads back as the level for the three named levels, and the record ends with '}' |
| Api.RecordMessageReadsBack | api.go:43-45 | with the message escaped, a reader gets the safe message back and stops where the level field begins |
| Api.New | api.go:26-32 | a logger on the oldest pooled pair, or on a fresh pair, whose view is just '{' and whose flag is live; a reused array gets '{' at index 0 and keeps its other bytes |
| Api.Write | api.go:34-51 | a live logger at or above the level sends exactly one record to the sink, and when the record fits in the shared array it overlays the array's start with the bytes past it unchanged; when it does not fit, the model sends the same record from a fresh array and keeps the old one whole (Go writes the leading pieces that fit into it first; see Left out); a disabled write sends nothing and leaves the array untouched; the logger's own view never changes |
| Api.Extend | api.go:41-49 | appending the rest of a record past a view: the new view holds the record, and the old view's bytes are kept; when the record fits, it overlays the shared array with the bytes past it unchanged; otherwise the model uses a fresh array and keeps the old one whole, where Go's piece-by-piece appends first fill the old array (see Left out) |
| Api.OverlaidPrefix | api.go:39-49 | after a write that fits, any view of the shared array shows the record's bytes up to the record's length and the old bytes past it |
| Api.Error | api.go:53-55 | Write at the error level, with Write's record and array contract |
| Api.Warning | api.go:57-59 | Write at the warning level, with Write's record and array contract |
| Api.Debug | api.go:61-63 | Write at the debug level, with Write's record and array contract |
| Api.WithAttrs | api.go:65-68 | the child's view is the caller's followed by the encoded attributes; the caller's bytes are unchanged; the child shares the caller's array unless the append had to grow it; in the shared case the attributes overlay the array past the caller's view and every other byte keeps its value, and after growth the model keeps the caller's array whole, where Go first writes the fields that fit into it (see Left out) |
| Api.Close | api.go:70-72 | sets the lineage's flag and queues its buffer, truncated, at the pool's tail unless the pool is full |
| Encode.ReadStopsAtQuote | log.go:120-125 | a JSON string reader stops at the first quote after plain bytes, whatever follows it |
| Encode.NameIsNotEscaped | log.go:85-88 | an attribute name holding a quote ends its JSON key at that quote, so the key reads back as the part before it |
| Api.RecordRawMessage | api.go:43-49 | the record with the message written raw, as the code does; it equals the escaped record whenever the message needs no escape |
| Api.RawMessageLosesQuote | api.go:43-45 | with the raw message, a quote inside it ends the string early, and a reader gets only the bytes before that quote |
| Scenarios.Levels | log_test.go:98-134 | error, warning and debug records each name their own level on a debug-level logger |
| Scenarios.LowLevelIsQuiet | log_test.go:136-143 | an error-level logger sends nothing for a warning |
| Scenarios.CancelledCascade | log_test.go:339-356 | a grandchild that is built and dropped leaves no trace in its parent's next record |
| Scenarios.SequencedWrites | log_test.go:359-427 | a child's record carries both contexts and its own attributes, and the parent's next record carries only its own context and attributes |
| Scenarios.CloseSilences | log_test.go:430-437 | after Close, a write through the closed logger or through an alias of it sends nothing |
| Scenarios.ReopenWrites | log_test.go:439-443 | a new logger reuses the closed pair and writes again |
| Scenarios.DoubleClose | log.go:46-58 | closing twice queues one pair twice, so two later loggers share one buffer and one flag, and closing one silences the other |
| Scenarios.StaleLoggerRevives | log.go:32-44 | a logger kept after Close writes again once its pair is reacquired |
| Scenarios.SiblingOverwrite | api.go:65-68 | two children of one logger write at the same place, so the first child's context becomes the second's attributes, with a remnant of its own when the second's are shorter |
| Scenarios.ParentOverwritesChild | api.go:38-49 | a parent's record written after a child was made lies over the child's context, and the child's next record opens with the start of the parent's record |

## Left out

- Sink write errors and the `log.Printf` fallback (`log.go:60-64`) are left out. The sink only records what it receives.
- Concurrency is left out. The pool channel and the atomic stores to the flag are sequential updates; no interleaving is modelled.
- Float conversion is left out: the float64 comparison with `math.MaxInt64`, the two float-to-int conversions and `strconv.FormatFloat` (`log.go:210-217`). A float value is given as its integer part and scaled fraction, or as the formatted text of a huge value. The split cannot represent a float below the minimum int64, -Inf, NaN, or 2^63 itself: `math.MaxInt64` converts to float64 as exactly 2^63, so for 2^63 the test `attr > math.MaxInt64` at `log.go:210` is false. For all of these `int64(attr)` at `log.go:215` is out of range and Go leaves the result implementation-defined, so the model has no text for them.
- `time.Time.String` is left out. A time attribute carries the text that method renders.
- Stack-trace formatting (`fmt.Sprintf("%+v", …)`) is left out. An error carries its message and, optionally, the trace text.
- Go's `int` and `uint` are taken as 64 bits wide.
- `safeStringAppend` ranges over runes, and the model scans bytes. The three escaped characters are ASCII, and no multi-byte UTF-8 sequence contains an ASCII byte, so the output is the same.
- Shared.Append: Go's runtime growth policy (size classes, 1.25x growth for large slices) is abstracted as a new capacity of max(2·cap, needed).
- Api.Extend: appends the rest of the bytes in one `Append`. When they do not all fit, the model leaves the old array untouched and puts everything in a fresh array. Go appends piece by piece (`api.go:41-49`, `log.go:82-88`, `log.go:166-191`), so each piece that still fits is written into the old array just past the view before a later piece grows it. On that path the old array's bytes from the view's end up to the first piece that does not fit are overwritten in Go and kept in the model. The bytes under the view and the bytes of the new view are the same in both.
- Api.Write: the record goes through Api.Extend, so on the growth path the model's `unchanged(l.buffer.arr)` is stronger than Go. For example, with a view of length 1023 in a 1024-byte array, Go writes the `,` of `api.go:41` at index 1023 before `"message":"` grows the array. On that path a longer view sharing the array (a child's context) is overwritten in Go but kept in the model, so the overwrite hazard of Scenarios.ParentOverwritesChild and Scenarios.SiblingOverwrite is captured only when the record fits. The record sent to the sink is the same.
- Api.WithAttrs: appends the encoded attributes through Api.Extend rather than field by field, so the same holds: on the growth path Go writes the fields that still fit into the caller's array before it grows, and the model keeps that array untouched.
- Api.Write: the message is escaped like any other string value, where `api.go:44` appends it raw (see Findings). The as-written record is Api.RecordRawMessage, which agrees with the escaped one for every message that needs no escape.
- Api.BuildRecord: builds the record with the message escaped through `strAttrToJSON`, where `api.go:43-45` appends it raw between the quotes; Api.RecordRawMessage is the record as written.
- Api.Write: returns early when the flag is set, which `api.go:34-37` as given does not do. This follows the pooled logger of `log.go:22-58` and `log_test.go:430-437`.
- Api.Close: `api.go:71` passes `l.buffer[:0]` to `releaseLogger`, which takes a (buffer, flag) pair. The model releases the logger's pair.
- `attrsToJson` (`api.go:48`, `api.go:66`) is taken to be `attrsToJSON` of `log.go:78-91`. The `Attr` of `api.go:12-16` is taken to have all the kinds that `attrs.go` and `log.go:93-118` use.
- Scenarios.SequencedWrites: covers the second half of the test (a child's write, then the parent's), with per-call attributes for both. The parent's two earlier writes are the same as those in Scenarios.Levels.

## Findings

| source | as written | input that shows it | evidently intended | confidence | as-written member | corrected member |
|---|---|---|---|---|---|---|
| api.go:43-45 | the message is appended raw between the quotes of the `"message"` field | a message `a"b`: the string ends after `a`, and `b"` spills into the object | the message is escaped like every other string value, as `strAttrToJSON` (`log.go:120-125`) does, and as log_test.go:290-295 expects a quoted message to read back | high, not executed | Api.RawMessageLosesQuote | Api.RecordMessageReadsBack |
