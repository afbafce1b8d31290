/**
 * Conversion of a FILETIME (a count of 100-nanosecond ticks since
 * 1601-01-01 UTC) into whole Unix seconds, as ParseFiletime does before it
 * hands the seconds to time.Unix.
 */
module Filetime {
  import opened Binary

  /** Ticks between 1601-01-01 and 1970-01-01. */
  const EpochDelta: int := 116444736000000000

  /** Ticks in one second. */
  const TicksPerSecond: int := 10000000

  const TwoTo64: int := 0x1_0000_0000_0000_0000

  /** ParseFiletime as written: the tick difference is taken in wrapping
      uint64 arithmetic, divided, and reinterpreted as int64. */
  function ParseFiletime(ft: uint64): (secs: int)
    ensures 0 <= secs && secs * TicksPerSecond < TwoTo64
    ensures ft >= EpochDelta ==> secs == UnixSeconds(ft)
    ensures ft < EpochDelta ==> secs == (ft - EpochDelta + TwoTo64) / TicksPerSecond
  {
    Pow256Values();
    var diff := (ft - EpochDelta) % TwoTo64;
    assert diff == if ft >= EpochDelta then ft - EpochDelta else ft - EpochDelta + TwoTo64;
    ToSigned(diff / TicksPerSecond, 8)
  }

  /** The Unix time of ft in whole seconds, rounded towards the past: what
      ParseFiletime evidently computes for every FILETIME, including those
      before 1970. */
  function UnixSeconds(ft: uint64): (secs: int)
    ensures secs * TicksPerSecond <= ft - EpochDelta < (secs + 1) * TicksPerSecond
  {
    (ft - EpochDelta) / TicksPerSecond
  }

  /** The FILETIME of the first tick of Unix second secs. */
  function ToFiletime(secs: int): (ft: int)
    ensures (ft - EpochDelta) % TicksPerSecond == 0
  {
    secs * TicksPerSecond + EpochDelta
  }

  /** UnixSeconds inverts ToFiletime on every representable FILETIME. */
  lemma UnixSecondsOfToFiletime(secs: int)
    requires 0 <= ToFiletime(secs) < TwoTo64
    ensures UnixSeconds(ToFiletime(secs)) == secs
  {
  }

  /** Every tick of a second maps to that second. */
  lemma UnixSecondsOfTick(secs: int, tick: int)
    requires 0 <= tick < TicksPerSecond
    requires 0 <= ToFiletime(secs) + tick < TwoTo64
    ensures UnixSeconds(ToFiletime(secs) + tick) == secs
  {
  }

  /** One tick before 1970, ParseFiletime answers a date about 58000 years
      ahead instead of one second before the Unix epoch. */
  lemma ParseFiletimeWrapsBeforeEpoch()
    ensures ParseFiletime(EpochDelta - 1) == 1844674407370
    ensures UnixSeconds(EpochDelta - 1) == -1
  {
  }

  /** The all-zero timestamp decodes to a positive second count. */
  lemma ParseFiletimeOfZero()
    ensures ParseFiletime(0) == 1833029933770
    ensures UnixSeconds(0) == -11644473600
  {
  }
}
