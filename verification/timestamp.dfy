/** Conversion of an NTP timestamp (section 6 of RFC 5905: 32-bit seconds
    since 1900-01-01 and a 32-bit binary fraction of a second) to a Unix
    time of whole seconds since 1970-01-01 plus nanoseconds. */
module Timestamp {
  import opened Bytes

  /** Seconds from 1900-01-01 to 1970-01-01. */
  const NtpEpochOffset: int := 2208988800
  const NanosPerSecond: int := 1_000_000_000
  /** One second in units of the fraction field. */
  const FractionScale: int := 0x1_0000_0000

  type Nanos = x: int | 0 <= x < 1_000_000_000

  /** An instant as Unix seconds and nanoseconds within that second. */
  datatype Time = Time(sec: int64, nsec: Nanos)

  /** The instant as nanoseconds since 1970-01-01. */
  function UnixNanos(t: Time): int {
    t.sec * NanosPerSecond + t.nsec
  }

  /** Unix seconds of the NTP seconds field; exact for every field value
      and no era correction is made. */
  function UnixSeconds(s: uint32): (secs: int64)
    ensures -NtpEpochOffset <= secs <= FractionScale - 1 - NtpEpochOffset
  {
    s - NtpEpochOffset
  }

  /** The NTP seconds field of a Unix second within the NTP era: the
      inverse of `UnixSeconds`, which the client never computes. */
  function NtpSeconds(secs: int64): (s: uint32)
    requires -NtpEpochOffset <= secs < FractionScale - NtpEpochOffset
    ensures UnixSeconds(s) == secs
  {
    secs + NtpEpochOffset
  }

  lemma NtpSecondsOfUnixSeconds(s: uint32)
    ensures NtpSeconds(UnixSeconds(s)) == s
  {
  }

  lemma UnixSecondsMonotone(s: uint32, s': uint32)
    ensures s <= s' <==> UnixSeconds(s) <= UnixSeconds(s')
  {
  }

  /** Arithmetic right shift of a signed 64-bit value by 32 bits, which
      rounds toward negative infinity like Dafny's division by a positive
      divisor. */
  function ShiftRight32(x: int64): (r: int64)
    ensures r * FractionScale <= x < (r + 1) * FractionScale
  {
    x / 0x1_0000_0000
  }

  /** Nanoseconds of the fraction field, computed as a 64-bit product
      shifted right by 32: the product fits in int64 for every field
      value, and the result is the largest whole number of nanoseconds not
      above the fraction. */
  function FractionToNanos(f: uint32): (n: int64)
    ensures 0 <= n < NanosPerSecond
    ensures n * FractionScale <= f * NanosPerSecond < (n + 1) * FractionScale
  {
    var product: int64 := (f as int64) * 1_000_000_000;
    ShiftRight32(product)
  }

  lemma FractionToNanosMonotone(f: uint32, g: uint32)
    requires f <= g
    ensures FractionToNanos(f) <= FractionToNanos(g)
  {
  }

  /** Zero is zero, one half is exactly half a second, and the largest
      fraction stays below one second. */
  lemma FractionToNanosBoundaries()
    ensures FractionToNanos(0) == 0
    ensures FractionToNanos(0x8000_0000) == 500_000_000
    ensures FractionToNanos(0xFFFF_FFFF) == 999_999_999
  {
  }

  /** The smallest fraction field whose conversion is `n` nanoseconds: an
      inverse of `FractionToNanos`, which the client never computes. */
  function NanosToFraction(n: Nanos): (f: uint32)
    ensures f * NanosPerSecond >= n * FractionScale
    ensures f == 0 || (f - 1) * NanosPerSecond < n * FractionScale
  {
    (n * FractionScale + NanosPerSecond - 1) / NanosPerSecond
  }

  /** Every nanosecond value is reached: converting the fraction that
      stands for `n` nanoseconds gives `n` back. */
  lemma FractionToNanosOfNanosToFraction(n: Nanos)
    ensures FractionToNanos(NanosToFraction(n)) == n
  {
    var f := NanosToFraction(n);
    assert f * NanosPerSecond < n * FractionScale + NanosPerSecond;
    assert n * FractionScale + NanosPerSecond < (n + 1) * FractionScale;
  }

  /** The Unix time an NTP timestamp stands for. */
  function ToUnixTime(s: uint32, f: uint32): (t: Time)
    ensures 0 <= (s - NtpEpochOffset) * NanosPerSecond * FractionScale + f * NanosPerSecond
                 - UnixNanos(t) * FractionScale < FractionScale
  {
    Time(UnixSeconds(s), FractionToNanos(f))
  }

  /** The NTP timestamp of a Unix time within the NTP era: the inverse of
      `ToUnixTime`, which the client never computes. */
  function FromUnixTime(t: Time): (ts: (uint32, uint32))
    requires -NtpEpochOffset <= t.sec < FractionScale - NtpEpochOffset
  {
    (NtpSeconds(t.sec), NanosToFraction(t.nsec))
  }

  /** Any Unix time within the NTP era survives the trip through an NTP
      timestamp and back, to the nanosecond. */
  lemma ToUnixTimeOfFromUnixTime(t: Time)
    requires -NtpEpochOffset <= t.sec < FractionScale - NtpEpochOffset
    ensures ToUnixTime(FromUnixTime(t).0, FromUnixTime(t).1) == t
  {
    FractionToNanosOfNanosToFraction(t.nsec);
  }

  /** Later NTP timestamps (within one era) give no earlier Unix times. */
  lemma ToUnixTimeMonotone(s: uint32, f: uint32, s': uint32, f': uint32)
    requires s < s' || (s == s' && f <= f')
    ensures UnixNanos(ToUnixTime(s, f)) <= UnixNanos(ToUnixTime(s', f'))
  {
    if s == s' {
      FractionToNanosMonotone(f, f');
    }
  }

  /** The receive and transmit timestamps of a reply stamped
      2024-01-01T00:00:00Z and half a second later. */
  lemma NewYear2024()
    ensures ToUnixTime(3913056000, 0) == Time(1704067200, 0)
    ensures ToUnixTime(3913056000, 0x8000_0000) == Time(1704067200, 500_000_000)
  {
    FractionToNanosBoundaries();
  }
}
