/** The part of .NET's `System.DateTime` that the timestamp conversions use: a
    tick count (100 ns units since 0001-01-01 00:00:00) with a kind, the
    range-checked constructor, and `ToUniversalTime`. */
module DotNetDateTime {
  import opened Wrappers

  /** Ticks of 9999-12-31 23:59:59.9999999, `DateTime.MaxValue.Ticks`. */
  const MaxTicks: int := 3155378975999999999

  type Ticks = t: int | 0 <= t <= MaxTicks

  datatype Kind = Unspecified | Utc | Local

  datatype DateTime = DateTime(ticks: Ticks, kind: Kind)

  /** The host's local time zone, reduced to the offset (in ticks, local minus
      UTC) that applies at the instant being converted. */
  datatype Zone = Zone(utcOffset: int)

  /** `new DateTime(ticks, kind)`: `None` stands for the
      ArgumentOutOfRangeException thrown for a tick count outside the range. */
  function New(ticks: int, kind: Kind): (r: Option<DateTime>)
    ensures r.Some? <==> 0 <= ticks <= MaxTicks
    ensures r.Some? ==> r.value.ticks == ticks && r.value.kind == kind
  {
    if 0 <= ticks <= MaxTicks then Some(DateTime(ticks, kind)) else None
  }

  /** Saturates a tick count to the DateTime range, as the time-zone
      conversions do instead of throwing. */
  function Clamp(t: int): (r: Ticks)
    ensures 0 <= t <= MaxTicks ==> r == t
    ensures t < 0 ==> r == 0
    ensures t > MaxTicks ==> r == MaxTicks
  {
    if t < 0 then 0 else if t > MaxTicks then MaxTicks else t
  }

  /** `dt.ToUniversalTime()`: a UTC value is returned unchanged; a local or
      unspecified one is shifted back by the zone's offset. */
  function ToUniversalTime(dt: DateTime, zone: Zone): (r: DateTime)
    ensures r.kind == Utc
    ensures dt.kind == Utc ==> r == dt
    ensures dt.kind != Utc ==> r.ticks == Clamp(dt.ticks - zone.utcOffset)
  {
    if dt.kind == Utc then dt else DateTime(Clamp(dt.ticks - zone.utcOffset), Utc)
  }

}
