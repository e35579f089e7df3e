/** The time arithmetic of the staleness test inside `can_be_removed`:
    timestamps arrive as unsigned milliseconds, are cast to a signed 64-bit
    integer, truncated to whole seconds and compared against a three-week age. */
module Timestamps {

  /** A millisecond timestamp as the file metadata reports it (an unsigned 64-bit value). */
  newtype u64 = x: int | 0 <= x < 0x1_0000_0000_0000_0000

  /** Age limit `Duration::weeks(3)`, in seconds. */
  const ThreeWeeks: int := 3 * 7 * 24 * 60 * 60

  /** `x as i64`: the two's-complement reading of the 64 bits of `x`. */
  function AsI64(x: u64): (r: int)
    ensures -0x8000_0000_0000_0000 <= r < 0x8000_0000_0000_0000
    ensures (x as int - r) % 0x1_0000_0000_0000_0000 == 0
  {
    if x < 0x8000_0000_0000_0000 then x as int else x as int - 0x1_0000_0000_0000_0000
  }

  /** Signed 64-bit division by 1000, which rounds toward zero (unlike Dafny's `/`). */
  function TruncDiv1000(x: int): (r: int)
    ensures 0 <= x ==> 0 <= r && 1000 * r <= x < 1000 * r + 1000
    ensures x < 0 ==> r <= 0 && 1000 * r - 1000 < x <= 1000 * r
  {
    if 0 <= x then x / 1000 else -((-x) / 1000)
  }

  /** The whole-second value `ms as i64 / 1000` that the staleness test compares. */
  function Seconds(ms: u64): (r: int)
    ensures -9_223_372_036_854_775 <= r <= 9_223_372_036_854_775
    ensures ms < 0x8000_0000_0000_0000 ==> r == ms as int / 1000
    ensures 0x8000_0000_0000_0000 <= ms ==> r <= 0
  {
    TruncDiv1000(AsI64(ms))
  }

  /** `now - t < old`: a time `t` (whole seconds) lies less than three weeks before `now`.
      A time after `now` counts as recent too. */
  predicate Recent(now: int, t: int)
    ensures Recent(now, t) <==> t >= now - ThreeWeeks + 1
    ensures t >= now ==> Recent(now, t)
  {
    now - t < ThreeWeeks
  }

  /** The test that clears the `remove` flag: the file was accessed or modified recently,
      that is, the later of its two times is recent. */
  predicate IsFresh(now: int, atimeMs: u64, mtimeMs: u64)
    ensures IsFresh(now, atimeMs, mtimeMs) <==>
      Recent(now, if Seconds(atimeMs) >= Seconds(mtimeMs) then Seconds(atimeMs) else Seconds(mtimeMs))
  {
    Recent(now, Seconds(atimeMs)) || Recent(now, Seconds(mtimeMs))
  }

  /** For a timestamp that fits in an i64, the truncation to seconds throws away the
      sub-second part: the timestamp is recent exactly when it is no earlier than the
      first millisecond of the second `now - ThreeWeeks + 1`. */
  lemma RecentIffMillis(now: int, ms: u64)
    requires ms < 0x8000_0000_0000_0000
    ensures Seconds(ms) == ms as int / 1000
    ensures Recent(now, Seconds(ms)) <==> ms as int >= 1000 * (now - ThreeWeeks + 1)
  {
  }

  /** A timestamp too large for an i64 wraps to a negative count of milliseconds,
      so it reads as a time at or before the epoch and is never recent once the
      clock is three weeks past the epoch. */
  lemma WrappedTimestampIsOld(now: int, ms: u64)
    requires 0x8000_0000_0000_0000 <= ms
    requires ThreeWeeks <= now
    ensures AsI64(ms) < 0 && Seconds(ms) <= 0
    ensures !Recent(now, Seconds(ms))
  {
  }
}
