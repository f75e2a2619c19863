/**
  The loop's uptime delta, `getDelta_t` (src/main.cpp:31-43). On the ESP8266
  both `unsigned long` and `unsigned int` are 32 bits wide, so
  `uptime - lastCycleUptime` is already the elapsed time modulo 2^32, and the
  guard `delta_t > UINT_MAX` can never hold. This module models the function
  as written, branch included, proves the branch dead and proves that its
  formula would be one tick short if it were ever taken.
*/
module Uptime {

  /** 2^32: the modulus of `unsigned long` and `unsigned int` on the ESP8266. */
  const Modulus: int := 0x1_0000_0000
  const UintMax: int := 0xFFFF_FFFF
  const UlongMax: int := 0xFFFF_FFFF

  /** A 32-bit unsigned value. */
  type uint32 = x: int | 0 <= x < 0x1_0000_0000

  /** The value a 32-bit unsigned variable holds after an assignment of `x`. */
  function Wrap(x: int): uint32
  {
    x % Modulus
  }

  /** The time from `since` to `now` on a clock that wraps around at 2^32. */
  function Elapsed(now: uint32, since: uint32): uint32
  {
    Wrap(now - since)
  }

  /** Advancing `since` by the elapsed time gives `now` again, with or without a wrap-around. */
  lemma ElapsedRoundTrip(now: uint32, since: uint32)
    ensures Wrap(since + Elapsed(now, since)) == now
  {
  }

  /** The elapsed time is the only 32-bit value that advances `since` to `now`. */
  lemma ElapsedUnique(now: uint32, since: uint32, d: uint32)
    requires Wrap(since + d) == now
    ensures d == Elapsed(now, since)
  {
  }

  /** A clock of 2^32 ticks read at 0xFFFF_FFFA and then, after the wrap, at 5. */
  lemma ElapsedAcrossWrap()
    ensures Elapsed(5, 0xFFFF_FFFA) == 11
  {
  }

  /** The guard of line 38 never holds: a 32-bit difference never exceeds `UINT_MAX`. */
  lemma WideningBranchDead(now: uint32, since: uint32)
    ensures !(Wrap(now - since) > UintMax)
  {
  }

  /** The formula of line 39, `ULONG_MAX - lastCycleUptime + uptime`, as written. */
  function WideningFormula(now: uint32, since: uint32): uint32
  {
    Wrap(UlongMax - since + now)
  }

  /** The formula of line 39 is one tick short of the elapsed time for every pair of readings. */
  lemma WideningFormulaOffByOne(now: uint32, since: uint32)
    ensures WideningFormula(now, since) == Wrap(Elapsed(now, since) - 1)
    ensures WideningFormula(now, since) != Elapsed(now, since)
  {
  }

  /** The globals `uptime` and `lastCycleUptime` (src/main.cpp:31-32). */
  class CycleClock {
    var uptime: uint32
    var lastCycleUptime: uint32

    /** `setup` starts both readings at the same `millis()` value (src/main.cpp:144-145). */
    constructor (millis: uint32)
      ensures uptime == millis && lastCycleUptime == millis
    {
      uptime := millis;
      lastCycleUptime := millis;
    }

    /**
      `getDelta_t()`, where `millis` is the value `millis()` returned. The
      delta is the time since the previous call, across a wrap-around too,
      and the call becomes the new reference point.
    */
    method GetDelta(millis: uint32) returns (delta: uint32)
      modifies this
      ensures uptime == millis && lastCycleUptime == millis
      ensures delta == Elapsed(millis, old(lastCycleUptime))
      ensures Wrap(old(lastCycleUptime) + delta) == millis
    {
      uptime := millis;
      var d := Wrap(uptime - lastCycleUptime);
      if d > UintMax {
        d := WideningFormula(uptime, lastCycleUptime);
      }
      lastCycleUptime := uptime;
      delta := d;
    }
  }
}
