/**
 * The MSVC stand-in for `gettimeofday` (contrib/sys/time.h). Windows
 * reports the time as a FILETIME: a 64-bit count of 100-nanosecond ticks
 * since 1601-01-01 UTC, delivered as two 32-bit halves. The shim joins the
 * halves, moves the count to the Unix epoch 1970-01-01 with unsigned 64-bit
 * arithmetic, and splits it into whole seconds and microseconds, each cast
 * to MSVC's 32-bit `long`.
 *
 * The clock reading itself (`GetSystemTimeAsFileTime`) is an input here.
 */
module SysTime {

  /** 100-nanosecond FILETIME ticks in one second and in one microsecond. */
  const TicksPerSecond: nat := 10_000_000
  const TicksPerMicrosecond: nat := 10
  const SecondsPerDay: nat := 86_400

  /** Seconds from 1601-01-01 to 1970-01-01. */
  const EpochDeltaSeconds: nat := 11_644_473_600
  /** The constant the shim subtracts: the same span in ticks. */
  const EpochDeltaTicks: nat := 116_444_736_000_000_000

  /** 2^32 and 2^64: the ranges of `DWORD` and `unsigned __int64`. */
  const Word: nat := 0x1_0000_0000
  const QuadWord: nat := 0x1_0000_0000_0000_0000

  /** The range of `long`, which is 32 bits wide under MSVC. */
  const LongMin: int := -0x8000_0000
  const LongMax: int := 0x7fff_ffff

  /** A value of MSVC's 32-bit `long`. */
  newtype Long = x: int | LongMin <= x <= LongMax

  // ---------------------------------------------------------------------------
  // The epoch offset is the Gregorian span 1601-01-01 .. 1970-01-01
  // ---------------------------------------------------------------------------

  predicate IsLeapYear(y: int) {
    y % 4 == 0 && (y % 100 != 0 || y % 400 == 0)
  }

  function DaysInYear(y: int): nat {
    if IsLeapYear(y) then 366 else 365
  }

  /** Days from January 1 of year `start` to January 1 of year `stop`. */
  function DaysBetween(start: int, stop: int): nat
    requires start <= stop
    decreases stop - start
  {
    if start == stop then 0 else DaysInYear(start) + DaysBetween(start + 1, stop)
  }

  /** Leap years in 1 .. y - 1 under the Gregorian rule, counted in closed form. */
  function LeapYearsBefore(y: int): int
    requires y >= 1
  {
    (y - 1) / 4 - (y - 1) / 100 + (y - 1) / 400
  }

  /** The closed-form count goes up by one exactly past a leap year. */
  lemma LeapYearStep(y: int)
    requires y >= 1
    ensures LeapYearsBefore(y + 1) - LeapYearsBefore(y) == if IsLeapYear(y) then 1 else 0
  {
    assert y / 4 - (y - 1) / 4 == if y % 4 == 0 then 1 else 0;
    assert y / 100 - (y - 1) / 100 == if y % 100 == 0 then 1 else 0;
    assert y / 400 - (y - 1) / 400 == if y % 400 == 0 then 1 else 0;
  }

  /** Counting days year by year agrees with the closed form. */
  lemma {:induction false} DaysBetweenClosedForm(start: int, stop: int)
    requires 1 <= start <= stop
    ensures DaysBetween(start, stop) == 365 * (stop - start) + LeapYearsBefore(stop) - LeapYearsBefore(start)
    decreases stop - start
  {
    if start < stop {
      DaysBetweenClosedForm(start + 1, stop);
      LeapYearStep(start);
    }
  }

  /** The shim's constant is the number of ticks from 1601-01-01 to
      1970-01-01: 134774 days of 86400 seconds of 10^7 ticks. */
  lemma EpochDeltaIsCalendarSpan()
    ensures EpochDeltaSeconds == DaysBetween(1601, 1970) * SecondsPerDay
    ensures EpochDeltaTicks == EpochDeltaSeconds * TicksPerSecond
  {
    DaysBetweenClosedForm(1601, 1970);
    assert LeapYearsBefore(1970) == 477 && LeapYearsBefore(1601) == 388;
  }

  // ---------------------------------------------------------------------------
  // FILETIME
  // ---------------------------------------------------------------------------

  /** A FILETIME: ticks since 1601-01-01 UTC, split into two 32-bit words. */
  datatype FileTime = FileTime(dwLowDateTime: bv32, dwHighDateTime: bv32)

  /** The 64-bit tick count: the high word shifted up 32 bits, OR-ed with the
      low word. The OR never overlaps, so it is the high word times 2^32 plus
      the low word. */
  function JoinedTicks(ft: FileTime): (ticks: nat)
    ensures ticks == ft.dwHighDateTime as nat * Word + ft.dwLowDateTime as nat
    ensures ticks < QuadWord
  {
    var high, low := ft.dwHighDateTime, ft.dwLowDateTime;
    ShiftOrIsAdd(high, low);
    (((high as bv64) << 32) | (low as bv64)) as nat
  }

  lemma ShiftOrIsAdd(high: bv32, low: bv32)
    ensures (((high as bv64) << 32) | (low as bv64)) as int == high as int * 0x1_0000_0000 + low as int
  {
  }

  /** Both words can be read back from the joined count: nothing is lost. */
  lemma JoinedTicksKeepsWords(ft: FileTime)
    ensures JoinedTicks(ft) / Word == ft.dwHighDateTime as nat
    ensures JoinedTicks(ft) % Word == ft.dwLowDateTime as nat
  {
  }

  // ---------------------------------------------------------------------------
  // The arithmetic of the shim
  // ---------------------------------------------------------------------------

  /** `tmp -= 116444736000000000ULL` on an unsigned 64-bit count: exact from
      the Unix epoch on; before it the count wraps around modulo 2^64 rather
      than going negative. */
  function UnixTicks(ticks: nat): (u: nat)
    requires ticks < QuadWord
    ensures u < QuadWord
    ensures ticks >= EpochDeltaTicks ==> u == ticks - EpochDeltaTicks
    ensures ticks < EpochDeltaTicks ==> u == ticks + QuadWord - EpochDeltaTicks
  {
    (ticks - EpochDeltaTicks) % QuadWord
  }

  /** `tmp / 10000000ULL`: whole seconds. */
  function Seconds(u: nat): (sec: nat)
    ensures sec * TicksPerSecond <= u < (sec + 1) * TicksPerSecond
  {
    u / TicksPerSecond
  }

  /** `(tmp % 10000000ULL) / 10`: the microseconds within the second. */
  function Microseconds(u: nat): (us: nat)
    ensures us <= 999_999
  {
    (u % TicksPerSecond) / TicksPerMicrosecond
  }

  /** The `(long)` cast under MSVC: the value modulo 2^32, read as a signed
      32-bit number. The result is the one `long` congruent to the input, and
      it is the input itself whenever the input fits. */
  function ToLong(x: nat): (r: Long)
    ensures (x - r as int) % Word == 0
    ensures x <= LongMax ==> r as int == x
  {
    var m := x % Word;
    if m <= LongMax then m as Long else (m - Word) as Long
  }

  /** Seconds and microseconds lose only the sub-microsecond ticks. */
  lemma TicksReconstruct(u: nat)
    ensures Seconds(u) * TicksPerSecond + Microseconds(u) * TicksPerMicrosecond
            + u % TicksPerMicrosecond == u
  {
    var sec, r := u / 10_000_000, u % 10_000_000;
    assert u == sec * 10_000_000 + r;
    assert r == (r / 10) * 10 + r % 10;
    assert u % 10 == r % 10;
  }

  /** `(seconds, microseconds)` ordered lexicographically. */
  predicate NotLater(sec1: int, usec1: int, sec2: int, usec2: int) {
    sec1 < sec2 || (sec1 == sec2 && usec1 <= usec2)
  }

  /** From the Unix epoch on, a later FILETIME never reads as an earlier
      time, before narrowing and, while the seconds fit a `long`, after. */
  lemma UnixTimeMonotonic(t1: nat, t2: nat)
    requires EpochDeltaTicks <= t1 <= t2 < QuadWord
    ensures var u1, u2 := UnixTicks(t1), UnixTicks(t2);
            && NotLater(Seconds(u1), Microseconds(u1), Seconds(u2), Microseconds(u2))
            && (Seconds(u2) <= LongMax ==>
                  NotLater(ToLong(Seconds(u1)) as int, ToLong(Microseconds(u1)) as int,
                           ToLong(Seconds(u2)) as int, ToLong(Microseconds(u2)) as int))
  {
    var u1, u2 := UnixTicks(t1), UnixTicks(t2);
    assert u1 <= u2;
    DivIsMonotonic(u1, u2, TicksPerSecond);
    if Seconds(u1) == Seconds(u2) {
      assert u1 % TicksPerSecond <= u2 % TicksPerSecond;
      DivIsMonotonic(u1 % TicksPerSecond, u2 % TicksPerSecond, TicksPerMicrosecond);
    }
  }

  lemma DivIsMonotonic(x: nat, y: nat, d: nat)
    requires x <= y && d > 0
    ensures x / d <= y / d
  {
    assert (x / d) * d <= x <= y < (y / d + 1) * d;
    MulCancel(x / d, y / d + 1, d);
  }

  lemma MulCancel(a: int, b: int, d: int)
    requires d > 0 && a * d < b * d
    ensures a < b
  {
  }

  /** The seconds are exact exactly up to 2^31 seconds past the Unix epoch
      (January 2038); a FILETIME before 1970 wraps to a count of seconds far
      beyond `long`, never to a negative one. */
  lemma SecondsFitLong(t: nat)
    requires t < QuadWord
    ensures t >= EpochDeltaTicks ==>
              (Seconds(UnixTicks(t)) <= LongMax <==>
               t < EpochDeltaTicks + (LongMax + 1) * TicksPerSecond)
    ensures t < EpochDeltaTicks ==> Seconds(UnixTicks(t)) >= 1_833_029_933_770
  {
  }

  /** A FILETIME equal to the offset reads as the Unix epoch itself. */
  lemma EpochReadsAsZero()
    ensures JoinedTicks(FileTime(3_577_643_008, 27_111_902)) == EpochDeltaTicks
    ensures UnixTicks(EpochDeltaTicks) == 0
    ensures ToLong(Seconds(0)) == 0 && ToLong(Microseconds(0)) == 0
  {
  }

  // ---------------------------------------------------------------------------
  // gettimeofday
  // ---------------------------------------------------------------------------

  /** `struct timeval` with MSVC's 32-bit `long` fields. */
  class TimeVal {
    var tvSec: Long
    var tvUsec: Long

    constructor ()
      ensures tvSec == 0 && tvUsec == 0
    {
      tvSec, tvUsec := 0, 0;
    }
  }

  /** `gettimeofday(tp, tzp)`: `now` stands for the FILETIME that
      `GetSystemTimeAsFileTime` delivers; the time-zone argument is ignored.
      It writes the two fields of `tp` and nothing else, and returns 0. The
      microseconds always fit; the seconds are exact while they fit a
      `long` and are otherwise the `long` congruent to them modulo 2^32. */
  method GetTimeOfDay(tp: TimeVal, now: FileTime) returns (status: int)
    modifies tp
    ensures status == 0
    ensures var u := UnixTicks(JoinedTicks(now));
            && tp.tvSec == ToLong(Seconds(u))
            && tp.tvUsec as int == Microseconds(u)
            && 0 <= tp.tvUsec <= 999_999
            && (Seconds(u) <= LongMax ==> tp.tvSec as int == Seconds(u))
  {
    var tmp := JoinedTicks(now);
    tmp := UnixTicks(tmp);
    tp.tvSec := ToLong(tmp / TicksPerSecond);
    tp.tvUsec := ToLong((tmp % TicksPerSecond) / TicksPerMicrosecond);
    status := 0;
  }
}
