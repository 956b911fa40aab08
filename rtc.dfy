/** Calendar arithmetic of the real-time clock: broken-down UTC time to
    seconds since the Epoch and back, and the BCD fields of the RTC
    registers. */
module Rtc {
  import opened CInt

  /** Broken-down time as the firmware's `RTC::tm` holds it: the full year,
      month 1..12, day 1..31. */
  datatype Tm = Tm(year: int, month: int, day: int, hours: int, minutes: int, seconds: int)

  /** Days before the first of each month in a common year. */
  const MONTH_YDAY: seq<int> := [0, 31, 59, 90, 120, 151, 181, 212, 243, 273, 304, 334]
  /** `toUnixTime` counts days from 1 March of year -4800; this many of them
      precede 1970-01-01. */
  const EPOCH_ADJUST: int := 2472692

  /** 2000-03-01, the day after a 400-year cycle's last leap day. */
  const LEAPOCH: int := 946684800 + 86400 * (31 + 29)
  const DAYS_PER_400Y: int := 365 * 400 + 97
  const DAYS_PER_100Y: int := 365 * 100 + 24
  const DAYS_PER_4Y: int := 365 * 4 + 1
  /** Month lengths from March to February, February taken as leap. */
  const DAYS_IN_MONTH: seq<int> := [31, 30, 31, 30, 31, 31, 30, 31, 30, 31, 31, 29]
  /** Days before each of those months, counted from 1 March. */
  const MARCH_YDAY: seq<int> := [0, 31, 61, 92, 122, 153, 184, 214, 245, 275, 306, 337]

  /** `toUnixTime`: every step is uint32 arithmetic, so each intermediate
      result is reduced modulo 2^32. */
  function ToUnixTime(year: int, month: int, day: int, hours: int, minutes: int, seconds: int): uint32
    requires 1 <= month <= 12
  {
    var yearAdj := U32(year + 4800);
    var febs := U32(yearAdj - (if month <= 2 then 1 else 0));
    var leapDays := U32(1 + febs / 4 - febs / 100 + febs / 400);
    var days := U32(365 * yearAdj + leapDays + MONTH_YDAY[month - 1] + day - 1);
    var sinceEpoch := U32(days - EPOCH_ADJUST);
    U32(sinceEpoch * 3600 * 24 + hours * 3600 + minutes * 60 + seconds)
  }

  /** The day count `toUnixTime` computes before it scales to seconds, as an
      exact integer. */
  function DaysSinceEpoch(year: int, month: int, day: int): int
    requires 1 <= month <= 12
  {
    var febs := year + 4800 - (if month <= 2 then 1 else 0);
    365 * (year + 4800) + 1 + febs / 4 - febs / 100 + febs / 400 + MONTH_YDAY[month - 1] + day - 1
      - EPOCH_ADJUST
  }

  /** 1970-01-01 00:00:00 is second 0. */
  lemma EpochIsZero()
    ensures ToUnixTime(1970, 1, 1, 0, 0, 0) == 0
  {
  }

  /** For dates from the Epoch on, no step before the last one wraps. */
  lemma ToUnixTimeExact(year: int, month: int, day: int, hours: int, minutes: int, seconds: int)
    requires 0 <= year <= 1_000_000 && 1 <= month <= 12 && 1 <= day <= 31
    requires DaysSinceEpoch(year, month, day) >= 0
    ensures ToUnixTime(year, month, day, hours, minutes, seconds)
      == U32(DaysSinceEpoch(year, month, day) * 86400 + hours * 3600 + minutes * 60 + seconds)
  {
    var febs := year + 4800 - (if month <= 2 then 1 else 0);
    assert 0 <= febs / 100 <= febs / 4;
    assert U32(febs) == febs;
    assert U32(1 + febs / 4 - febs / 100 + febs / 400) == 1 + febs / 4 - febs / 100 + febs / 400;
    var days := 365 * (year + 4800) + 1 + febs / 4 - febs / 100 + febs / 400 + MONTH_YDAY[month - 1] + day - 1;
    assert 0 <= days < TWO_32;
    var e := DaysSinceEpoch(year, month, day);
    assert U32(days - EPOCH_ADJUST) == e;
    assert e * 3600 * 24 == e * 86400;
  }

  predicate IsLeap(year: int)
  {
    year % 4 == 0 && (year % 100 != 0 || year % 400 == 0)
  }

  /** Length of a month of the Gregorian calendar. */
  function DaysInMonth(year: int, month: int): int
    requires 1 <= month <= 12
  {
    if month == 2 then (if IsLeap(year) then 29 else 28)
    else if month == 4 || month == 6 || month == 9 || month == 11 then 30
    else 31
  }

  /** tm_yday: days since 1 January of the same year. */
  function YearDay(year: int, month: int, day: int): int
    requires 1 <= month <= 12
  {
    MONTH_YDAY[month - 1] + (if month > 2 && IsLeap(year) then 1 else 0) + day - 1
  }

  /** Seconds Since the Epoch, as section 4.16 of the Base Definitions of
      POSIX.1-2017 defines them from tm_year (years since 1900), tm_yday,
      tm_hour, tm_min and tm_sec; its divisions are C's. */
  function PosixSeconds(tmYear: int, tmYday: int, hour: int, min: int, sec: int): int
  {
    sec + min * 60 + hour * 3600 + tmYday * 86400 + (tmYear - 70) * 31536000
      + CDiv(tmYear - 69, 4) * 86400 - CDiv(tmYear - 1, 100) * 86400 + CDiv(tmYear + 299, 400) * 86400
  }

  /** Leap days up to and including year x (for the proleptic Gregorian
      calendar, counted from year 0). */
  function LeapsThrough(x: int): int
  {
    x / 4 - x / 100 + x / 400
  }

  lemma DivStep(x: int, d: int)
    requires d > 0
    ensures x / d == (x - 1) / d + (if x % d == 0 then 1 else 0)
  {
    var q, r := (x - 1) / d, (x - 1) % d;
    if r == d - 1 {
      DivUnique(x, d, q + 1, 0);
    } else {
      DivUnique(x, d, q, r + 1);
    }
  }

  lemma MultipleOf(x: int, d: int, e: int)
    requires d > 0 && e > 0 && x % (d * e) == 0
    ensures x % d == 0
  {
    var k := x / (d * e);
    assert x == k * (d * e);
    assert x == (k * e) * d;
    DivUnique(x, d, k * e, 0);
  }

  /** One more year adds a leap day exactly when that year is a leap year. */
  lemma LeapsThroughStep(x: int)
    ensures LeapsThrough(x) == LeapsThrough(x - 1) + (if IsLeap(x) then 1 else 0)
  {
    DivStep(x, 4);
    DivStep(x, 100);
    DivStep(x, 400);
    if x % 400 == 0 { MultipleOf(x, 100, 4); }
    if x % 100 == 0 { MultipleOf(x, 4, 25); }
  }

  /** The leap-day count of `toUnixTime`, moved to the Epoch. */
  lemma DaysSinceEpochLeaps(year: int, month: int, day: int)
    requires 1 <= month <= 12
    ensures DaysSinceEpoch(year, month, day)
      == 365 * (year - 1970) + LeapsThrough(year - 1) - 477 + YearDay(year, month, day)
  {
    LeapsThroughStep(year);
    var y := if month <= 2 then year - 1 else year;
    DivShift(y, 1200, 4);
    DivShift(y, 48, 100);
    DivShift(y, 12, 400);
  }

  /** `toUnixTime` yields the seconds since the Epoch of POSIX.1-2017
      section 4.16, reduced to 32 bits, for every date from 1970 on. */
  lemma ToUnixTimeIsPosix(year: int, month: int, day: int, hours: int, minutes: int, seconds: int)
    requires 1970 <= year <= 1_000_000 && 1 <= month <= 12 && 1 <= day <= 31
    ensures ToUnixTime(year, month, day, hours, minutes, seconds)
      == U32(PosixSeconds(year - 1900, YearDay(year, month, day), hours, minutes, seconds))
  {
    DaysSinceEpochLeaps(year, month, day);
    DivShift(year - 1969, 492, 4);
    DivShift(year - 1901, 19, 100);
    DivShift(year - 1601, 4, 400);
    LeapsNonNegative(year - 1970);
    ToUnixTimeExact(year, month, day, hours, minutes, seconds);
  }

  /** 477 leap days fall in the years 0..1969. */
  lemma {:induction false} LeapsNonNegative(n: nat)
    ensures LeapsThrough(n + 1969) - 477 >= 0
  {
    if n > 0 {
      LeapsNonNegative(n - 1);
      LeapsThroughStep(n + 1969);
    }
  }

  /** Whole 400-, 100- and 4-year cycles and single years, counted from a
      1 March, hold this many days: 365 per year plus one per leap year. */
  lemma CyclesToYears(qc: int, c: int, q: int, r: int)
    requires 0 <= c <= 3 && 0 <= q <= 24 && 0 <= r <= 3
    ensures var ym := r + 4 * q + 100 * c + 400 * qc;
      365 * ym + LeapsThrough(ym) == DAYS_PER_400Y * qc + DAYS_PER_100Y * c + DAYS_PER_4Y * q + 365 * r
  {
    DivUnique(r, 4, 0, r);
    DivShift(r, q + 25 * c + 100 * qc, 4);
    DivUnique(r + 4 * q, 100, 0, r + 4 * q);
    DivShift(r + 4 * q, c + 4 * qc, 100);
    DivUnique(r + 4 * q + 100 * c, 400, 0, r + 4 * q + 100 * c);
    DivShift(r + 4 * q + 100 * c, qc, 400);
  }

  /** Day `rd` of month `m0` counted from March of March-based year
      2000 + ym is civil date (year, month, rd + 1); January and February
      belong to the next civil year. */
  lemma MarchToCivil(ym: int, m0: int, rd: int)
    requires ym >= -400 && 0 <= m0 < 12
    ensures var year := 2000 + ym + (if m0 >= 10 then 1 else 0);
      var month := if m0 >= 10 then m0 - 9 else m0 + 3;
      DaysSinceEpoch(year, month, rd + 1) == 11017 + 365 * ym + LeapsThrough(ym) + MARCH_YDAY[m0] + rd
  {
    DivShift(ym, 1700, 4);
    DivShift(ym, 68, 100);
    DivShift(ym, 17, 400);
  }

  /** Seconds of the day split into hours, minutes and seconds. */
  lemma ClockSplit(x: int)
    requires 0 <= x < 86400
    ensures 0 <= x / 3600 < 24 && 0 <= x / 60 % 60 < 60 && 0 <= x % 60 < 60
    ensures x == (x / 3600) * 3600 + (x / 60 % 60) * 60 + x % 60
  {
    var h, rest := x / 3600, x % 3600;
    DivUnique(x, 60, h * 60 + rest / 60, rest % 60);
    DivUnique(h * 60 + rest / 60, 60, h, rest / 60);
  }

  /** C's division followed by the fix-up `if (rem < 0) { rem += b; q--; }`:
      floor division with a remainder in [0, b). */
  method FloorDivide(a: int, b: int) returns (q: int, rem: int)
    requires b > 0
    ensures a == q * b + rem && 0 <= rem < b
    ensures q == a / b && rem == a % b
  {
    q := CDiv(a, b);
    rem := CMod(a, b);
    FloorFixUp(a, b);
    if rem < 0 {
      rem := rem + b;
      q := q - 1;
    }
  }

  /** The capped 100-year, 4-year and 1-year steps inside a 400-year cycle.
      The caps keep the 400-year cycle's last day (its leap day) inside the
      last century, the last 4-year cycle and the last year. */
  method SplitEra(days: int) returns (cCycles: int, qCycles: int, remyears: int, remdays: int)
    requires 0 <= days < DAYS_PER_400Y
    ensures 0 <= cCycles <= 3 && 0 <= qCycles <= 24 && 0 <= remyears <= 3
    ensures 0 <= remdays <= 365
    ensures remdays == 365 ==> remyears == 3 && (qCycles < 24 || cCycles == 3)
    ensures days == cCycles * DAYS_PER_100Y + qCycles * DAYS_PER_4Y + remyears * 365 + remdays
  {
    // Every dividend here is non-negative, so C's division is Dafny's.
    remdays := days;
    cCycles := remdays / DAYS_PER_100Y;
    if cCycles == 4 {
      cCycles := cCycles - 1;
    }
    remdays := remdays - cCycles * DAYS_PER_100Y;
    assert 0 <= remdays <= DAYS_PER_100Y;

    qCycles := remdays / DAYS_PER_4Y;
    if qCycles == 25 {
      qCycles := qCycles - 1;
    }
    remdays := remdays - qCycles * DAYS_PER_4Y;
    assert 0 <= remdays < DAYS_PER_4Y;

    remyears := remdays / 365;
    if remyears == 4 {
      remyears := remyears - 1;
    }
    remdays := remdays - remyears * 365;
  }

  /** A March-based year reaches its day 365 only in the last year of a
      4-year cycle that is not a century's short last cycle, so the
      February that ends it has 29 days. */
  lemma LastDayIsLeap(qc: int, c: int, q: int)
    requires 0 <= c <= 3 && 0 <= q <= 24 && (q < 24 || c == 3)
    ensures IsLeap(2004 + 4 * q + 100 * c + 400 * qc)
  {
    var y := 2004 + 4 * q + 100 * c + 400 * qc;
    DivUnique(y, 4, 501 + q + 25 * c + 100 * qc, 0);
    if q < 24 {
      DivUnique(y, 100, 20 + c + 4 * qc, 4 + 4 * q);
    } else {
      DivUnique(y, 400, 6 + qc, 0);
    }
  }

  /** The month walk from March: the month index (0 = March) and the day
      within that month. */
  method SplitMonths(yearDays: int) returns (months: int, remdays: int)
    requires 0 <= yearDays <= 365
    ensures 0 <= months < 12 && 0 <= remdays < DAYS_IN_MONTH[months]
    ensures yearDays == MARCH_YDAY[months] + remdays
  {
    months := 0;
    remdays := yearDays;
    while DAYS_IN_MONTH[months] <= remdays
      invariant 0 <= months <= 11
      invariant 0 <= remdays < 366 - MARCH_YDAY[months]
      invariant yearDays == MARCH_YDAY[months] + remdays
      decreases 11 - months
    {
      remdays := remdays - DAYS_IN_MONTH[months];
      months := months + 1;
    }
  }

  /** The second half of `fromUnixTime`'s date split: whole cycles and
      years from 2000-03-01 plus a day of the March-based year, walked
      over the months from March and moved to the civil year, in which
      January and February come last. */
  method CivilDate(qcCycles: int, cCycles: int, qCycles: int, remyears: int, yearDays: int)
    returns (year: int, month: int, day: int)
    requires -1 <= qcCycles <= 0 && 0 <= cCycles <= 3 && 0 <= qCycles <= 24 && 0 <= remyears <= 3
    requires 0 <= yearDays <= 365
    requires yearDays == 365 ==> remyears == 3 && (qCycles < 24 || cCycles == 3)
    ensures 1600 <= year <= 2400 && 1 <= month <= 12 && 1 <= day <= DaysInMonth(year, month)
    ensures DaysSinceEpoch(year, month, day)
      == 11017 + DAYS_PER_400Y * qcCycles + DAYS_PER_100Y * cCycles + DAYS_PER_4Y * qCycles + 365 * remyears + yearDays
  {
    var years := remyears + 4 * qCycles + 100 * cCycles + 400 * qcCycles;
    ghost var ym := years;
    var months, remdays := SplitMonths(yearDays);
    ghost var m0 := months;

    if months >= 10 {
      months := months - 12;
      years := years + 1;
    }
    year, month, day := years + 2000, months + 3, remdays + 1;

    CyclesToYears(qcCycles, cCycles, qCycles, remyears);
    MarchToCivil(ym, m0, remdays);
    if yearDays == 365 {
      LastDayIsLeap(qcCycles, cCycles, qCycles);
    }
  }

  /** `fromUnixTime`: seconds since the Epoch to broken-down UTC time, by
      400-, 100- and 4-year cycles from 2000-03-01 and a walk over the
      months starting in March. */
  method FromUnixTime(t: uint32) returns (ok: bool, result: Tm)
    ensures ok
    ensures 1 <= result.month <= 12 && 1 <= result.day <= DaysInMonth(result.year, result.month)
    ensures 0 <= result.hours < 24 && 0 <= result.minutes < 60 && 0 <= result.seconds < 60
    ensures ToUnixTime(result.year, result.month, result.day, result.hours, result.minutes, result.seconds) == t
  {
    var secs: int := t - LEAPOCH;
    var days, remsecs := FloorDivide(secs, 86400);
    var qcCycles, eraDays := FloorDivide(days, DAYS_PER_400Y);
    assert -1 <= qcCycles <= 0;
    var cCycles, qCycles, remyears, yearDays := SplitEra(eraDays);
    var year, month, day := CivilDate(qcCycles, cCycles, qCycles, remyears, yearDays);

    result := Tm(year, month, day, remsecs / 3600, remsecs / 60 % 60, remsecs % 60);
    ok := true;

    ClockSplit(remsecs);
    assert DaysSinceEpoch(result.year, result.month, result.day) == 11017 + days;
    ToUnixTimeExact(result.year, result.month, result.day, result.hours, result.minutes, result.seconds);
  }

  /** `decodeBCD`: tens digit times ten plus units digit, each read from
      its bit field of a register word; uint32 arithmetic, hence bv32. */
  function DecodeBCD(v: bv32, tShift: bv32, tMask: bv32, uShift: bv32, uMask: bv32): bv32
    requires tShift < 32 && uShift < 32
  {
    ((v >> tShift) & tMask) * 10 + ((v >> uShift) & uMask)
  }

  /** `encodeBCD`: v / 10 into the tens field and v % 10 into the units
      field, each cut to its mask. */
  function EncodeBCD(v: bv32, tShift: bv32, tMask: bv32, uShift: bv32, uMask: bv32): bv32
    requires tShift < 32 && uShift < 32
  {
    (((v / 10) & tMask) << tShift) | (((v % 10) & uMask) << uShift)
  }

  lemma TwoDigits(v: bv32)
    requires v <= 99
    ensures v / 10 < 10 && v % 10 < 10 && (v / 10) * 10 + v % 10 == v
  {
  }

  /* The RTC time and date registers keep each two-digit field as a 4-bit
     units field at bit 0, 8 or 16 with its tens field right above it. For
     each position, decoding an encoded value gives it back whenever the
     tens mask holds the tens digit. */

  lemma BCDRoundTripAt0(v: bv32, tMask: bv32)
    requires v <= 99 && (v / 10) & tMask == v / 10
    ensures DecodeBCD(EncodeBCD(v, 4, tMask, 0, 0xF), 4, tMask, 0, 0xF) == v
  {
    TwoDigits(v);
  }

  lemma BCDRoundTripAt8(v: bv32, tMask: bv32)
    requires v <= 99 && (v / 10) & tMask == v / 10
    ensures DecodeBCD(EncodeBCD(v, 12, tMask, 8, 0xF), 12, tMask, 8, 0xF) == v
  {
    TwoDigits(v);
  }

  lemma BCDRoundTripAt16(v: bv32, tMask: bv32)
    requires v <= 99 && (v / 10) & tMask == v / 10
    ensures DecodeBCD(EncodeBCD(v, 20, tMask, 16, 0xF), 20, tMask, 16, 0xF) == v
  {
    TwoDigits(v);
  }
}
