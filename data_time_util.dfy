/** `MyCore.Utils.DataTimeUtil`: conversions between Unix timestamps (in
    milliseconds or seconds since 1970-01-01 UTC) and DateTime tick counts. */
module DataTimeUtil {
  import opened Wrappers
  import opened Int64
  import opened DotNetDateTime
  import opened LongParse

  /** Ticks from 0001-01-01 to 1970-01-01 UTC, `Const.TiksUtc1970`. */
  const TiksUtc1970: int := 621355968000000000

  /** Ticks per timestamp unit: a millisecond or a second. */
  function Divisor(millisecond: bool): (d: int)
    ensures d > 0
  {
    if millisecond then 10000 else 10000000
  }

  /** The first and last timestamp that denote a DateTime. */
  function MinTimestamp(millisecond: bool): int {
    if millisecond then -62135596800000 else -62135596800
  }

  function MaxTimestamp(millisecond: bool): int {
    if millisecond then 253402300799999 else 253402300799
  }

  /** `dt.ToTimestamp(millisecond)`: whole units elapsed between the epoch and
      the universal time of `dt`, counted toward the epoch (C# division
      truncates), so an instant before 1970 rounds up. */
  function ToTimestamp(dt: DateTime, zone: Zone, millisecond: bool := true): (r: int64)
    ensures MinTimestamp(millisecond) <= r <= MaxTimestamp(millisecond)
    ensures var offset, d := ToUniversalTime(dt, zone).ticks - TiksUtc1970, Divisor(millisecond);
      if offset >= 0 then r * d <= offset < r * d + d
      else r * d - d < offset <= r * d
  {
    var divisor := Divisor(millisecond);
    var dtTicks := ToUniversalTime(dt, zone).ticks;
    TruncDiv(dtTicks - TiksUtc1970, divisor)
  }

  /** `timestamp.ToDateTime(millisecond, localTime)` with the arithmetic
      checked, as the method's contract promises: an overflowing product or sum
      raises an exception that the catch turns into null, like a tick count
      the DateTime constructor rejects. The result is null exactly when the
      timestamp is outside the DateTime range. */
  function ToDateTime(timestamp: int64, millisecond: bool := true, localTime: bool := true): (r: Option<DateTime>)
    ensures r.Some? <==> MinTimestamp(millisecond) <= timestamp <= MaxTimestamp(millisecond)
    ensures r.Some? ==> r.value.kind == Utc
    ensures r.Some? ==> r.value.ticks == TiksUtc1970 + timestamp * Divisor(millisecond)
  {
    var ms := Divisor(millisecond);
    match CheckedMul(timestamp, ms)
    case None => None
    case Some(product) =>
      match CheckedAdd(TiksUtc1970, product)
      case None => None
      case Some(ticks) =>
        // The value of `dt.ToLocalTime()` is discarded, so `localTime`
        // changes nothing: the UTC value is returned either way.
        New(ticks, Utc)
  }

  /** `timestamp.ToDateTime(millisecond, localTime)` as written, in C#'s
      default unchecked context: the product and the sum wrap modulo 2^64
      before the constructor checks the range. It agrees with ToDateTime
      whenever the product does not overflow. */
  function ToDateTimeWrapping(timestamp: int64, millisecond: bool := true, localTime: bool := true): (r: Option<DateTime>)
    ensures IsLong(timestamp * Divisor(millisecond)) ==> r == ToDateTime(timestamp, millisecond, localTime)
    ensures r.Some? ==> r.value.kind == Utc
    ensures r.Some? ==> (TiksUtc1970 + timestamp * Divisor(millisecond) - r.value.ticks) % Modulus == 0
    ensures var w := Wrap(TiksUtc1970 + timestamp * Divisor(millisecond));
      r == if 0 <= w <= MaxTicks then Some(DateTime(w, Utc)) else None
  {
    var ms := Divisor(millisecond);
    var ticks := Wrap(TiksUtc1970 + Wrap(timestamp * ms));
    WrapSum(TiksUtc1970, timestamp * ms);
    New(ticks, Utc)
  }

  /** `timestamp.ToDateTime(millisecond, localTime)` for a string, calling
      the checked conversion: null when the text does not parse as a `long`,
      else the conversion of the parsed value. */
  function ToDateTimeFromString(timestamp: string, millisecond: bool := true, localTime: bool := true): (r: Option<DateTime>)
    ensures TryParseLong(timestamp).None? ==> r.None?
    ensures TryParseLong(timestamp).Some? ==> r == ToDateTime(TryParseLong(timestamp).value, millisecond, localTime)
    ensures r.Some? ==> r.value.kind == Utc
    ensures r.Some? ==> var ts := TryParseLong(timestamp).value;
      MinTimestamp(millisecond) <= ts <= MaxTimestamp(millisecond) &&
      r.value.ticks == TiksUtc1970 + ts * Divisor(millisecond)
  {
    match TryParseLong(timestamp)
    case Some(ts) => ToDateTime(ts, millisecond, localTime)
    case None => None
  }

  /** The string overload as written, calling the wrapping conversion. It
      agrees with ToDateTimeFromString whenever the parsed product fits in a
      `long`. */
  function ToDateTimeFromStringWrapping(timestamp: string, millisecond: bool := true, localTime: bool := true): (r: Option<DateTime>)
    ensures TryParseLong(timestamp).None? ==> r.None?
    ensures TryParseLong(timestamp).Some? ==> r == ToDateTimeWrapping(TryParseLong(timestamp).value, millisecond, localTime)
    ensures TryParseLong(timestamp).Some? && IsLong(TryParseLong(timestamp).value * Divisor(millisecond))
      ==> r == ToDateTimeFromString(timestamp, millisecond, localTime)
  {
    match TryParseLong(timestamp)
    case Some(ts) => ToDateTimeWrapping(ts, millisecond, localTime)
    case None => None
  }

  /** The `localTime` flag has no effect on any of the conversions. */
  lemma LocalTimeIgnored(timestamp: int64, text: string, millisecond: bool)
    ensures ToDateTime(timestamp, millisecond, true) == ToDateTime(timestamp, millisecond, false)
    ensures ToDateTimeWrapping(timestamp, millisecond, true) == ToDateTimeWrapping(timestamp, millisecond, false)
    ensures ToDateTimeFromString(text, millisecond, true) == ToDateTimeFromString(text, millisecond, false)
    ensures ToDateTimeFromStringWrapping(text, millisecond, true) == ToDateTimeFromStringWrapping(text, millisecond, false)
  {
  }

  /** Timestamp -> DateTime -> timestamp gives the timestamp back, whatever
      the zone, because the DateTime is UTC. */
  lemma TimestampRoundTrip(timestamp: int64, millisecond: bool, localTime: bool, zone: Zone)
    requires ToDateTime(timestamp, millisecond, localTime).Some?
    ensures ToTimestamp(ToDateTime(timestamp, millisecond, localTime).value, zone, millisecond) == timestamp
  {
  }

  /** DateTime -> timestamp -> DateTime always succeeds and lands within one
      unit of the universal time of `dt`: at or before it from 1970 on, at or
      after it before 1970. */
  lemma DateTimeRoundTrip(dt: DateTime, millisecond: bool, localTime: bool, zone: Zone)
    ensures var u, d := ToUniversalTime(dt, zone).ticks, Divisor(millisecond);
      var r := ToDateTime(ToTimestamp(dt, zone, millisecond), millisecond, localTime);
      r.Some? && r.value.kind == Utc &&
      (if u >= TiksUtc1970 then r.value.ticks <= u < r.value.ticks + d
       else r.value.ticks - d < u <= r.value.ticks)
  {
  }

  /** A UTC DateTime that lies on a unit boundary survives the round trip
      unchanged. */
  lemma DateTimeRoundTripExact(dt: DateTime, millisecond: bool, localTime: bool, zone: Zone)
    requires dt.kind == Utc
    requires (dt.ticks - TiksUtc1970) % Divisor(millisecond) == 0
    ensures ToDateTime(ToTimestamp(dt, zone, millisecond), millisecond, localTime) == Some(dt)
  {
    var d := Divisor(millisecond);
    var k := (dt.ticks - TiksUtc1970) / d;
    EuclideanUnique(dt.ticks - TiksUtc1970, d, k);
    TruncDivOfMultiple(k, d);
  }

  /** For a fixed unit, a later universal time never gets a smaller
      timestamp. */
  lemma ToTimestampMonotone(dt1: DateTime, dt2: DateTime, millisecond: bool, zone: Zone)
    requires ToUniversalTime(dt1, zone).ticks <= ToUniversalTime(dt2, zone).ticks
    ensures ToTimestamp(dt1, zone, millisecond) <= ToTimestamp(dt2, zone, millisecond)
  {
  }

  /** The bracketing in the ensures of ToTimestamp determines the timestamp:
      no other value satisfies it. */
  lemma ToTimestampDetermined(dt: DateTime, millisecond: bool, zone: Zone, q: int)
    requires var offset, d := ToUniversalTime(dt, zone).ticks - TiksUtc1970, Divisor(millisecond);
      if offset >= 0 then 0 <= q && q * d <= offset < q * d + d
      else q <= 0 && q * d - d < offset <= q * d
    ensures ToTimestamp(dt, zone, millisecond) == q
  {
    TruncDivUnique(ToUniversalTime(dt, zone).ticks - TiksUtc1970, Divisor(millisecond), q);
  }

  /** A timestamp in seconds is the millisecond timestamp truncated to whole
      thousands. */
  lemma SecondsFromMilliseconds(dt: DateTime, zone: Zone)
    ensures ToTimestamp(dt, zone, false) == TruncDiv(ToTimestamp(dt, zone, true), 1000)
  {
  }

  /** The decimal text of a timestamp converts like the timestamp itself; the
      text of a number outside the `long` range gives null. */
  lemma StringConversion(n: int, millisecond: bool, localTime: bool)
    ensures ToDateTimeFromString(Format(n), millisecond, localTime)
      == if IsLong(n) then ToDateTime(n, millisecond, localTime) else None
  {
    ParseFormat(n);
  }

  /** As written, a millisecond timestamp of 2^60 (or a second timestamp of
      2^57) is accepted as 1970-01-01: the product wraps to zero. The round
      trip then fails, while the checked conversion returns null. */
  lemma WrappingAcceptsHugeTimestamp()
    ensures ToDateTimeWrapping(0x1000_0000_0000_0000, true, true) == Some(DateTime(TiksUtc1970, Utc))
    ensures ToDateTimeWrapping(0x200_0000_0000_0000, false, true) == Some(DateTime(TiksUtc1970, Utc))
    ensures ToDateTime(0x1000_0000_0000_0000, true, true).None?
    ensures ToDateTime(0x200_0000_0000_0000, false, true).None?
    ensures ToTimestamp(DateTime(TiksUtc1970, Utc), Zone(0), true) == 0
  {
  }

  /** The same discrepancy through the string overload: the text of 2^60
      gives 1970-01-01 as written and null through the checked path. */
  lemma WrappingAcceptsHugeTimestampText()
    ensures ToDateTimeFromStringWrapping(Format(0x1000_0000_0000_0000)) == Some(DateTime(TiksUtc1970, Utc))
    ensures ToDateTimeFromString(Format(0x1000_0000_0000_0000)).None?
  {
    ParseFormat(0x1000_0000_0000_0000);
    WrappingAcceptsHugeTimestamp();
  }
}
