/**
 * Wall-clock timing of one interval: a timer holds the start and stop
 * readings and the signed nanosecond difference between them. The clock
 * reading itself comes from outside and is a parameter here.
 */
module Timing {
  const NsPerSec: int := 1_000_000_000

  /** A `struct timespec`: whole seconds and nanoseconds. */
  datatype Timespec = Timespec(sec: int, nsec: int)

  /** A reading as the clock delivers it: the nanoseconds part is below one second. */
  predicate Normalized(t: Timespec) {
    0 <= t.nsec < NsPerSec
  }

  /** The instant as a single count of nanoseconds. */
  function TotalNs(t: Timespec): int {
    t.sec * NsPerSec + t.nsec
  }

  /** `b` is the same instant as `a` or a later one. */
  predicate NotBefore(b: Timespec, a: Timespec) {
    b.sec > a.sec || (b.sec == a.sec && b.nsec >= a.nsec)
  }

  /**
   * The difference `TIME_STOP` stores: the seconds apart, scaled to
   * nanoseconds, plus the difference of the nanosecond parts.
   */
  function Elapsed(a: Timespec, b: Timespec): int {
    (b.sec - a.sec) * NsPerSec + (b.nsec - a.nsec)
  }

  /** The stored difference is the distance between the two instants. */
  lemma ElapsedIsDifference(a: Timespec, b: Timespec)
    ensures Elapsed(a, b) == TotalNs(b) - TotalNs(a)
  {
    assert (b.sec - a.sec) * NsPerSec == b.sec * NsPerSec - a.sec * NsPerSec;
  }

  /** For readings from the clock the difference is non-negative exactly when `b` is not earlier than `a`. */
  lemma ElapsedSign(a: Timespec, b: Timespec)
    requires Normalized(a) && Normalized(b)
    ensures Elapsed(a, b) >= 0 <==> NotBefore(b, a)
  {
    var s := b.sec - a.sec;
    if s >= 1 {
      assert s * NsPerSec >= NsPerSec;
    } else if s <= -1 {
      assert s * NsPerSec <= -NsPerSec;
    }
  }

  /** For readings from the clock the difference is zero exactly for the same instant. */
  lemma ElapsedZero(a: Timespec, b: Timespec)
    requires Normalized(a) && Normalized(b)
    ensures Elapsed(a, b) == 0 <==> a == b
  {
    var s := b.sec - a.sec;
    if s >= 1 {
      assert s * NsPerSec >= NsPerSec;
    } else if s <= -1 {
      assert s * NsPerSec <= -NsPerSec;
    }
  }

  const Int64Min: int := -0x8000_0000_0000_0000
  const Int64Max: int := 0x7fff_ffff_ffff_ffff

  predicate InInt64(x: int) {
    Int64Min <= x <= Int64Max
  }

  /**
   * `dt` is an `int64_t` assigned in three steps. For readings less than
   * about 292 years apart none of the steps leaves the 64-bit range, so
   * the stored value is the mathematical difference.
   */
  lemma ElapsedFits(a: Timespec, b: Timespec)
    requires Normalized(a) && Normalized(b)
    requires -9_223_372_035 <= b.sec - a.sec <= 9_223_372_035
    ensures InInt64(b.sec - a.sec)
    ensures InInt64((b.sec - a.sec) * NsPerSec)
    ensures InInt64(Elapsed(a, b))
  {
    var s := b.sec - a.sec;
    assert -9_223_372_035 * NsPerSec <= s * NsPerSec <= 9_223_372_035 * NsPerSec;
  }

  /** The contents of a `timing_t`: the two readings and their difference. */
  datatype TimerState = TimerState(tsA: Timespec, tsB: Timespec, dt: int)

  /** The zero-filled timer `calloc` hands out. */
  const Zeroed: TimerState := TimerState(Timespec(0, 0), Timespec(0, 0), 0)

  /** `TIME_START` on a timer value. */
  function Started(t: TimerState, now: Timespec): TimerState {
    t.(tsA := now)
  }

  /** `TIME_STOP` on a timer value. */
  function Stopped(t: TimerState, now: Timespec): TimerState {
    t.(tsB := now, dt := Elapsed(t.tsA, now))
  }

  /**
   * Starting and then stopping measures the interval between the two
   * readings, whatever the timer held before; a later start leaves the
   * stored difference alone until the next stop.
   */
  lemma StartStop(t: TimerState, a: Timespec, b: Timespec, c: Timespec)
    ensures Stopped(Started(t, a), b).dt == Elapsed(a, b)
    ensures Started(Stopped(Started(t, a), b), c).dt == Elapsed(a, b)
    ensures Stopped(Started(t, a), b).tsA == a && Stopped(Started(t, a), b).tsB == b
  {
  }

  /** A `timing_t` updated in place. */
  class Timer {
    var tsA: Timespec
    var tsB: Timespec
    var dt: int

    function State(): TimerState
      reads this
    {
      TimerState(tsA, tsB, dt)
    }

    /** A zero-filled timer, as `calloc` leaves it. */
    constructor ()
      ensures State() == Zeroed
    {
      tsA := Timespec(0, 0);
      tsB := Timespec(0, 0);
      dt := 0;
    }

    /** `TIME_START`: records the start reading; nothing else changes. */
    method Start(now: Timespec)
      modifies this
      ensures State() == Started(old(State()), now)
    {
      tsA := now;
    }

    /** `TIME_STOP`: records the stop reading and the difference from the start reading. */
    method Stop(now: Timespec)
      modifies this
      ensures State() == Stopped(old(State()), now)
    {
      tsB := now;
      dt := tsB.sec - tsA.sec;
      dt := dt * NsPerSec;
      dt := dt + (tsB.nsec - tsA.nsec);
    }

    /** `TIME_DELTA_NS`: the stored difference. */
    function DeltaNs(): int
      reads this
    {
      dt
    }
  }

  /** `MIN(a, b)`: the smaller argument, `b` when neither is smaller. */
  function Min(a: int, b: int): (m: int)
    ensures m <= a && m <= b
    ensures m == a || m == b
  {
    if a < b then a else b
  }

  /** `MAX(a, b)`: the larger argument, `b` when neither is larger. */
  function Max(a: int, b: int): (m: int)
    ensures m >= a && m >= b
    ensures m == a || m == b
  {
    if a > b then a else b
  }
}
