/**
  Wrap-around-safe arithmetic on the 32-bit millisecond clock. The clock
  reading (`millis()` / `getCurrentTimestamp()`) is the explicit input `now`.
 */
module TimeUtils {
  import opened FixedWidth

  /**
    `getTimeDiff`: elapsed time from `startTime` to `endTime`, with the
    explicit wrap formula when the clock has rolled over in between.
   */
  function GetTimeDiff(startTime: uint32, endTime: uint32): (d: uint32)
    ensures d == (endTime - startTime) % U32_MODULUS
    ensures (startTime + d) % U32_MODULUS == endTime
    ensures startTime == endTime ==> d == 0
  {
    if endTime >= startTime then endTime - startTime
    else (ULONG_MAX - startTime) + endTime + 1
  }

  /**
    `isTimeout` read at clock value `now`: unsigned subtraction of the start
    from the current time, compared with the limit. It agrees with the
    explicit wrap formula of `getTimeDiff`.
   */
  function IsTimeout(startTime: uint32, timeoutMs: uint32, now: uint32): (r: bool)
    ensures r <==> GetTimeDiff(startTime, now) >= timeoutMs
  {
    Sub32(now, startTime) >= timeoutMs
  }

  /**
    Elapsed time survives a clock wrap: if the clock advanced by `e` ticks
    (fewer than 2^32) since `startTime`, the difference is exactly `e`, even
    when the reading rolled past `ULONG_MAX`.
   */
  lemma ElapsedAcrossWrap(startTime: uint32, e: int)
    requires 0 <= e < U32_MODULUS
    ensures GetTimeDiff(startTime, (startTime + e) % U32_MODULUS) == e
    ensures IsTimeout(startTime, e, (startTime + e) % U32_MODULUS)
  {
  }

  /** Elapsed times compose modulo the clock width: start to middle plus middle to end is start to end. */
  lemma TimeDiffAdds(a: uint32, b: uint32, c: uint32)
    ensures (GetTimeDiff(a, b) + GetTimeDiff(b, c)) % U32_MODULUS == GetTimeDiff(a, c)
  {
  }
}
