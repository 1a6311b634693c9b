/** `System.TimeSpan` and `System.DateTime` as whole numbers of 100-nanosecond
    ticks. Instants are unbounded integers: the range check of `DateTime.Add`
    is not modelled. */
module TimeSpans {

  const TicksPerMillisecond: int := 10_000
  const TicksPerSecond: int := 1000 * TicksPerMillisecond
  const TicksPerMinute: int := 60 * TicksPerSecond
  const TicksPerDay: int := 24 * 60 * TicksPerMinute

  /** `Timeout.InfiniteTimeSpan` (-1 ms): the "never expires" sentinel. */
  const Infinite: int := -TicksPerMillisecond

  function FromMinutes(m: int): int { m * TicksPerMinute }

  function FromDays(d: int): int { d * TicksPerDay }
}
