/**
 * The conversion of a file time to a `NaiveDateTime` in find.rs. A `SystemTime` is
 * known by its distance from the epoch, as `duration_since(UNIX_EPOCH)` reports it;
 * a time before the epoch is normalised to whole seconds below it plus a nanosecond
 * part in `0..10^9`. In a release build (no overflow checks) the signed
 * arithmetic wraps.
 */
module Find {
  import opened Io
  import opened Utils

  const NanosPerSec: nat := 1_000_000_000

  /** The sub-second nanoseconds of a `Duration`, always below one second. */
  type Nanos = n: nat | n < NanosPerSec

  /** `SystemTime::duration_since(UNIX_EPOCH)`: `Ok` at or after the epoch, `Err` before it. */
  datatype SinceEpoch = After(secs: u64, nanos: Nanos) | Before(secs: u64, nanos: Nanos)

  /** Two's-complement wrap-around of a result into `i64`. */
  function WrapI64(x: int): (w: i64)
    ensures (x - w) % 0x1_0000_0000_0000_0000 == 0
    ensures -0x8000_0000_0000_0000 <= x < 0x8000_0000_0000_0000 ==> w == x
  {
    (x + 0x8000_0000_0000_0000) % 0x1_0000_0000_0000_0000 - 0x8000_0000_0000_0000
  }

  /** `into_naive`'s seconds and nanoseconds (the arguments of `from_timestamp`). */
  function IntoNaive(t: SinceEpoch): (r: (i64, Nanos))
    ensures t.After? ==> r.1 == t.nanos
    ensures t.Before? ==> (r.1 == 0 <==> t.nanos == 0)
  {
    match t
    case After(secs, nanos) => (AsI64(secs), nanos)
    case Before(secs, nanos) =>
      var sec := AsI64(secs);
      if nanos == 0 then (WrapI64(-(sec as int)), 0)
      else (WrapI64(-(sec as int) - 1), NanosPerSec - nanos)
  }

  /** The signed nanoseconds from the epoch of a time given as seconds and nanoseconds. */
  function Total(secs: int, nanos: int): int {
    secs * NanosPerSec + nanos
  }

  /** At or after the epoch, and below 2^63 seconds, the time is kept exactly. */
  lemma AfterExact(secs: u64, nanos: Nanos)
    requires secs < 0x8000_0000_0000_0000
    ensures var r := IntoNaive(After(secs, nanos));
      r == (secs, nanos) && Total(r.0, r.1) == Total(secs, nanos)
  {
  }

  /**
   * Before the epoch the result is the same instant: its seconds are rounded down and
   * its nanoseconds count up from there. This holds for every time a 64-bit `time_t`
   * can hold, up to 2^63 seconds before the epoch, where the negation wraps onto the
   * right value.
   */
  lemma BeforeExact(secs: u64, nanos: Nanos)
    requires secs < 0x8000_0000_0000_0000 || (secs == 0x8000_0000_0000_0000 && nanos == 0)
    ensures var r := IntoNaive(Before(secs, nanos));
      Total(r.0, r.1) == -Total(secs, nanos)
      && (nanos == 0 ==> r.0 == -(secs as int))
      && (nanos != 0 ==> r.0 == -(secs as int) - 1 && r.1 == NanosPerSec - nanos)
  {
    if secs == 0x8000_0000_0000_0000 {
      assert AsI64(secs) == -0x8000_0000_0000_0000;
      assert WrapI64(0x8000_0000_0000_0000) == -0x8000_0000_0000_0000;
    }
  }

  /** Beyond that range the wrap-around gives a time 2^64 seconds away. */
  lemma BeforeWraps()
    ensures var r := IntoNaive(Before(0x8000_0000_0000_0000, 1));
      r.0 == 0x7FFF_FFFF_FFFF_FFFF && Total(r.0, r.1) != -Total(0x8000_0000_0000_0000, 1)
  {
    assert AsI64(0x8000_0000_0000_0000) == -0x8000_0000_0000_0000;
    assert WrapI64(0x8000_0000_0000_0000 - 1) == 0x7FFF_FFFF_FFFF_FFFF;
  }
}
