# DataTimeUtil timestamp conversions

This project models `MyCore/Utils/DataTimeUtil.cs` of MyCore. That file holds the
helpers that convert between Unix timestamps and .NET `DateTime` values. A
timestamp counts milliseconds (the default) or seconds since 1970-01-01 UTC. A
`DateTime` counts ticks of 100 ns since 0001-01-01. The conversions shift by the
constant `Const.TiksUtc1970` = 621355968000000000 ticks and divide or multiply by
10000 (milliseconds) or 10000000 (seconds).

Modules:

- `Int64` models C# `long` arithmetic. It covers the 64-bit range, unchecked
  wrap-around, checked overflow, and integer division. C# division truncates
  toward zero, while Dafny's `/` by a positive divisor rounds toward negative infinity
  for a negative dividend.
- `DotNetDateTime` models a `DateTime` as a tick count in [0, 3155378975999999999]
  plus a kind. It also covers the range-checked constructor and `ToUniversalTime`.
- `LongParse` models `long.TryParse` under the default `NumberStyles.Integer`.
  It also holds the decimal formatting that the parser inverts.
- `DataTimeUtil` models the three conversions and proves their properties.

A `DateTime?` result is an `Option<DateTime>`. The `try`/`catch` that turns an
exception into `null` becomes `None`.

## Model

| member | source | states |
|---|---|---|
| `Int64.TruncDiv` | MyCore/Utils/DataTimeUtil.cs:23 | C# `/` by a positive divisor: the quotient's multiples bracket the dividend from below for a non-negative dividend and from above for a negative one |
| `Int64.TruncDivNegate` | MyCore/Utils/DataTimeUtil.cs:23 | truncating division is symmetric: negating the dividend negates the quotient |
| `Int64.TruncDivVersusEuclidean` | MyCore/Utils/DataTimeUtil.cs:23 | C# and Euclidean division agree exactly when the dividend is non-negative or the division is exact |
| `Int64.TruncDivOfMultiple` | MyCore/Utils/DataTimeUtil.cs:23 | dividing `q * b` by `b` gives `q` back, for negative `q` too |
| `Int64.TruncDivMonotone` | MyCore/Utils/DataTimeUtil.cs:23 | truncating division by a positive divisor is non-decreasing in the dividend |
| `Int64.Wrap` | MyCore/Utils/DataTimeUtil.cs:38 | unchecked `long` arithmetic: the result lies in the 64-bit range, is congruent to the exact value modulo 2^64, and equals it when it fits |
| `Int64.WrapSum` | MyCore/Utils/DataTimeUtil.cs:38 | adding to an unchecked product and wrapping again gives the wrapped exact sum |
| `DotNetDateTime.New` | MyCore/Utils/DataTimeUtil.cs:38 | `new DateTime(ticks, kind)` succeeds exactly when the ticks are in [0, MaxTicks], and then keeps the ticks and kind |
| `DotNetDateTime.ToUniversalTime` | MyCore/Utils/DataTimeUtil.cs:22 | the result is UTC; a UTC value is unchanged; any other value is shifted back by the zone offset and saturated to the range |
| `LongParse.TryParseLong` | MyCore/Utils/DataTimeUtil.cs:58 | a parse succeeds only when the text contains a digit, and the value always fits in a `long` |
| `LongParse.ParsePadded` | MyCore/Utils/DataTimeUtil.cs:58 | white space on both sides, a `+` or `-` sign and leading zeros around the digits of `n` parse to `n` or `-n` when that fits in a `long`, and fail otherwise |
| `LongParse.ParseRejectsNonDigit` | MyCore/Utils/DataTimeUtil.cs:58 | once the surrounding white space is trimmed, any non-digit other than a leading sign makes the parse fail |
| `LongParse.ParseRejectsNoDigits` | MyCore/Utils/DataTimeUtil.cs:58 | blank text, or a sign alone, does not parse |
| `LongParse.ParsePaddedExample` | MyCore/Utils/DataTimeUtil.cs:58 | `" +007\t"` parses to 7 |
| `LongParse.ParseInnerSpaceExample` | MyCore/Utils/DataTimeUtil.cs:58 | `"4 2"` does not parse |
| `LongParse.ParseFormat` | MyCore/Utils/DataTimeUtil.cs:58 | parsing the decimal text of `n` gives `n` when it is a `long` and fails otherwise |
| `DataTimeUtil.ToTimestamp` | MyCore/Utils/DataTimeUtil.cs:15-24 | the result is the number of whole units between the epoch and the universal time, rounded toward the epoch, and lies in [MinTimestamp, MaxTimestamp] |
| `DataTimeUtil.ToDateTime` | MyCore/Utils/DataTimeUtil.cs:33-47 | null exactly when the timestamp is outside [MinTimestamp, MaxTimestamp]; otherwise a UTC value with ticks `TiksUtc1970 + timestamp * unit` |
| `DataTimeUtil.ToDateTimeWrapping` | MyCore/Utils/DataTimeUtil.cs:37-38 | as written, with wrap-around: with `w` the exact tick count wrapped into the `long` range, a UTC value with ticks `w` exactly when `w` is in [0, MaxTicks] and null otherwise; equal to `ToDateTime` whenever the product does not overflow |
| `DataTimeUtil.ToDateTimeFromString` | MyCore/Utils/DataTimeUtil.cs:56-63 | null when the text does not parse; otherwise exactly `ToDateTime` of the parsed value with the same flags, so a UTC value with ticks `TiksUtc1970 + ts * unit` when the parsed timestamp is in range and null otherwise |
| `DataTimeUtil.ToDateTimeFromStringWrapping` | MyCore/Utils/DataTimeUtil.cs:56-63 | as written: null when the text does not parse, otherwise the wrapping conversion of the parsed value; equal to `ToDateTimeFromString` whenever the parsed product fits in a `long` |
| `DataTimeUtil.LocalTimeIgnored` | MyCore/Utils/DataTimeUtil.cs:39-41 | the `localTime` flag changes no result of any of the three conversions |
| `DataTimeUtil.TimestampRoundTrip` | MyCore/Utils/DataTimeUtil.cs:15-41 | when `ToDateTime(ts)` returns a value, `ToTimestamp` of it is `ts` again, in any zone |
| `DataTimeUtil.DateTimeRoundTrip` | MyCore/Utils/DataTimeUtil.cs:15-41 | DateTime to timestamp to DateTime always succeeds and lands less than one unit from the universal time: at or before it from 1970 on, at or after it before 1970 |
| `DataTimeUtil.DateTimeRoundTripExact` | MyCore/Utils/DataTimeUtil.cs:15-41 | a UTC DateTime a whole number of units from the epoch comes back unchanged |
| `DataTimeUtil.ToTimestampDetermined` | MyCore/Utils/DataTimeUtil.cs:21-23 | the bracketing in the contract of `ToTimestamp` admits exactly one timestamp, so that contract fully specifies the result |
| `DataTimeUtil.ToTimestampMonotone` | MyCore/Utils/DataTimeUtil.cs:21-23 | for a fixed unit, a later universal time never gives a smaller timestamp |
| `DataTimeUtil.SecondsFromMilliseconds` | MyCore/Utils/DataTimeUtil.cs:21-23 | the seconds timestamp is the millisecond timestamp divided by 1000 with truncation |
| `DataTimeUtil.StringConversion` | MyCore/Utils/DataTimeUtil.cs:56-63 | the decimal text of a `long` converts like the number itself; the text of a number outside the `long` range gives null |
| `DataTimeUtil.WrappingAcceptsHugeTimestamp` | MyCore/Utils/DataTimeUtil.cs:37-38 | as written, 2^60 ms and 2^57 s convert to 1970-01-01 and so fail the round trip; the checked conversion returns null for them |
| `DataTimeUtil.WrappingAcceptsHugeTimestampText` | MyCore/Utils/DataTimeUtil.cs:56-63 | as written, the decimal text of 2^60 also converts to 1970-01-01 through the string overload; the checked path returns null |

## Findings

| source | as written | input that shows it | evidently intended | confidence | as-written member | corrected member |
|---|---|---|---|---|---|---|
| MyCore/Utils/DataTimeUtil.cs:38 | `timestamp * ms` is evaluated in C#'s default unchecked context and wraps modulo 2^64 before the DateTime constructor checks the range | `1152921504606846976L.ToDateTime()` (2^60 ms) and `144115188075855872L.ToDateTime(false)` (2^57 s): the product wraps to 0, so both return 1970-01-01, and `ToTimestamp` of that is 0 | null, as the doc comment promises for an invalid timestamp | high, not executed; assumes the project does not enable overflow checking | `DataTimeUtil.WrappingAcceptsHugeTimestamp` | `DataTimeUtil.ToDateTime` |

`DataTimeUtil.ToDateTimeWrapping` models the arithmetic as written, and
`DataTimeUtil.ToDateTimeFromStringWrapping` models the string overload as
written, which calls it. `DataTimeUtil.ToDateTime` is the corrected conversion.
It uses checked arithmetic, in which an overflow raises an exception that the
catch turns into null. `DataTimeUtil.ToDateTimeFromString` and the round-trip
lemmas are stated over `ToDateTime`.

## Left out

- `MyCore/NuclearAlgorithm.cs` is not part of this model. It wraps `MyAnalyse` and NetTopologySuite, whose source is not available, and its only local logic is floating-point unit scaling.
- `MyCore/Utils/HttpCli.cs` is not part of this model, because it does asynchronous HTTP I/O.
- `MyCore/Utils/Const.cs` is not modelled apart from `TiksUtc1970`. The `double` constants are floating point, and no modelled code uses the format strings or `TimestampMax`. The doc comment on `TiksUtc1970` says 1601, but the value counts ticks from 0001-01-01, and the model uses the value.
- `DateTime.ToLocalTime()`: the conversion discards its result, so the model does not compute it. Dropping the call is safe because `ToLocalTime()` saturates at the range limits and never throws, so it can never reach the `catch`.
- DataTimeUtil.ToDateTimeFromString: it models the corrected path, which calls the checked `ToDateTime`; the path as written is `ToDateTimeFromStringWrapping`. A C# `null` string has no counterpart, because Dafny strings are never null. In C#, `long.TryParse(null)` returns false, so the result is null.
- DotNetDateTime.ToUniversalTime: the host time zone is a parameter holding one fixed offset. Daylight-saving rules and ambiguous or invalid local times are not modelled.
- LongParse.TryParseLong: the parser accepts only `-` and `+` as signs and only ASCII digits. It does not model culture-specific sign strings, or the trailing NUL characters that .NET also accepts.
- The C# default arguments `millisecond = true` and `localTime = true` are Dafny default parameter values. The extension-method call syntax is modelled as ordinary calls.
- `DateTime` fields other than ticks and kind (calendar parts, formatting) are not modelled. The conversions do not use them.
