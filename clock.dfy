/**
 The wall clock (`System.currentTimeMillis`) as an oracle: the k-th query
 returns `readings(k)`. Nothing is assumed about the readings, not even that
 they grow.
 */
module SystemClock {

  class Clock {
    /** The value returned by each successive query. */
    const readings: nat -> int
    /** How many queries have been made so far. */
    var ticks: nat

    constructor (readings: nat -> int)
      ensures this.readings == readings && ticks == 0
    {
      this.readings := readings;
      ticks := 0;
    }

    /** The next reading, in milliseconds. */
    method CurrentTimeMillis() returns (now: int)
      modifies this
      ensures now == readings(old(ticks)) && ticks == old(ticks) + 1
    {
      now := readings(ticks);
      ticks := ticks + 1;
    }
  }
}
