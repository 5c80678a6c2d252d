/**
  Calendar time: seconds from broken-down dates by a closed form that starts
  each year on the first of March, and the time stamps of NTP.
*/
module CalendarTime {

  datatype Result<T> = Ok(value: T) | Error

  /** Broken-down time; `year` counts from 1900 and `mon` from 0. */
  datatype Tm = Tm(year: int, mon: int, mday: int, hour: int, min: int, sec: int)

  const USEC_PER_SEC := 1_000_000

  /** C division: towards zero. */
  function Div(x: int, y: int): (q: int)
    requires y > 0
  {
    if x >= 0 then x / y else -(-x / y)
  }

  const DAY_OFFSET: seq<int> := [306, 337, 0, 31, 61, 92, 122, 153, 184, 214, 245, 275]

  // ------------------------------------------------------ the Gregorian calendar

  predicate Leap(y: int) {
    y % 4 == 0 && (y % 100 != 0 || y % 400 == 0)
  }

  function YearLength(y: int): (n: nat) {
    if Leap(y) then 366 else 365
  }

  function MonthLength(y: int, m: nat): (n: nat)
    requires m < 12
    ensures 28 <= n <= 31
  {
    if m == 1 then (if Leap(y) then 29 else 28) else if m in {3, 5, 8, 10} then 30 else 31
  }

  /** The Gregorian calendar: the months of a year, and which years have a leap day. */
  lemma CalendarIs(y: int, m: nat)
    requires m < 12
    ensures MonthLength(y, m) == [31, if Leap(y) then 29 else 28, 31, 30, 31, 30, 31, 31, 30, 31, 30, 31][m]
    ensures y % 100 != 0 ==> (Leap(y) <==> y % 4 == 0)
    ensures y % 400 in {100, 200, 300} ==> !Leap(y)
    ensures y % 400 == 0 ==> Leap(y)
  {
  }

  /** The days of the years from 1970 up to `y`. */
  ghost function DaysOfYears(y: int): (n: nat)
    requires y >= 1970
    decreases y
  {
    if y == 1970 then 0 else DaysOfYears(y - 1) + YearLength(y - 1)
  }

  /** The days of the first `m` months of a year. */
  ghost function DaysOfMonths(y: int, m: nat): (n: nat)
    requires m <= 12
  {
    if m == 0 then 0 else DaysOfMonths(y, m - 1) + MonthLength(y, m - 1)
  }

  /** A date and time of day of the Gregorian calendar, of any year. */
  ghost predicate WellFormed(t: Tm) {
    && 0 <= t.mon < 12 && 1 <= t.mday <= MonthLength(1900 + t.year, t.mon)
    && 0 <= t.hour < 24 && 0 <= t.min < 60 && 0 <= t.sec < 60
  }

  /** One from 1970 on. */
  ghost predicate Valid(t: Tm) {
    t.year >= 70 && WellFormed(t)
  }

  /** Days since 1970, counted year by year and month by month. */
  ghost function Days(t: Tm): (n: nat)
    requires Valid(t)
  {
    DaysOfYears(1900 + t.year) + DaysOfMonths(1900 + t.year, t.mon) + t.mday - 1
  }

  ghost function Seconds(t: Tm): (n: nat)
    requires Valid(t)
  {
    ((Days(t) * 24 + t.hour) * 60 + t.min) * 60 + t.sec
  }

  // --------------------------------------------------------------- the closed form

  /** Days from 1 March 1900 to 1 March of the year `year` after 1900. */
  function MarchDays(year: int): (n: int) {
    year * 365 + Div(year, 4) - Div(year, 100) + Div(Div(year, 100) + 3, 4)
  }

  function ClosedDays(t: Tm): (n: int)
    requires 0 <= t.mon < 12
  {
    MarchDays(if t.mon < 2 then t.year - 1 else t.year) + DAY_OFFSET[t.mon] + t.mday - 1 - 25508
  }

  lemma FourthStep(n: nat)
    ensures (n + 1) / 4 == n / 4 + if (n + 1) % 4 == 0 then 1 else 0
  {
  }

  lemma HundredthStep(n: nat)
    ensures (n + 1) / 100 == n / 100 + if (n + 1) % 100 == 0 then 1 else 0
  {
  }

  lemma Shifted(n: nat)
    ensures (1900 + n) % 4 == n % 4 && (1900 + n) % 100 == n % 100
  {
  }

  lemma Centuries(n: nat)
    requires n % 100 == 0
    ensures (1900 + n) % 400 == 0 <==> (n / 100 + 3) % 4 == 0
    ensures n % 4 == 0
  {
    var c := n / 100;
    assert 1900 + n == 100 * (c + 19);
    var q, r := (c + 19) / 4, (c + 19) % 4;
    assert 1900 + n == 400 * q + 100 * r;
    assert (c + 3) % 4 == r;
  }

  /** A year that begins the next century, or does not. */
  lemma CenturyStep(year: nat)
    ensures var c, d := year / 100, (year + 1) / 100;
            (year + 1) / 4 - year / 4 - (d - c) + ((d + 3) / 4 - (c + 3) / 4) == YearLength(1901 + year) - 365
  {
    FourthStep(year);
    HundredthStep(year);
    Shifted(year + 1);
    if (year + 1) % 100 == 0 {
      Centuries(year + 1);
      FourthStep(year / 100 + 3);
    }
  }

  /** From one March to the next is the length of the year that begins in between. */
  lemma MarchStep(year: nat)
    ensures MarchDays(year + 1) == MarchDays(year) + YearLength(1901 + year)
  {
    CenturyStep(year);
  }

  lemma ToMarch(y: int)
    ensures DaysOfMonths(y, 2) == 59 + (YearLength(y) - 365)
  {
    assert DaysOfMonths(y, 1) == 31;
  }

  /** The years in full, up to January. */
  lemma {:induction false} YearsClosed(y: int)
    requires y >= 1970
    ensures DaysOfYears(y) == MarchDays(y - 1901) + 306 - 25508
    decreases y
  {
    if y == 1970 {
      assert MarchDays(69) == 25202;
    } else {
      YearsClosed(y - 1);
      var year: nat := y - 1902;
      MarchStep(year);
      assert 1901 + year == y - 1 && year + 1 == y - 1901;
    }
  }

  /** And up to March. */
  lemma MarchClosed(y: int)
    requires y >= 1970
    ensures DaysOfYears(y) + DaysOfMonths(y, 2) == MarchDays(y - 1900) - 25508
  {
    YearsClosed(y);
    ToMarch(y);
    var year: nat := y - 1901;
    MarchStep(year);
    assert 1901 + year == y && year + 1 == y - 1900;
  }

  /** The table of offsets counts the months from March on, and January and February after them. */
  lemma MonthsClosed(y: int, m: nat)
    requires m < 12
    ensures m >= 2 ==> DaysOfMonths(y, m) == DaysOfMonths(y, 2) + DAY_OFFSET[m]
    ensures m < 2 ==> DaysOfMonths(y, m) == DAY_OFFSET[m] - 306
  {
    if 0 < m && m != 2 {
      MonthsClosed(y, m - 1);
    }
  }

  /** The closed form counts the days. */
  lemma ClosedForm(t: Tm)
    requires Valid(t)
    ensures ClosedDays(t) == Days(t)
  {
    YearsClosed(1900 + t.year);
    MarchClosed(1900 + t.year);
    MonthsClosed(1900 + t.year, t.mon);
  }

  /** Before 1970 it counts below zero, also where the division of negative years rounds the other way. */
  lemma BeforeEpoch(t: Tm)
    requires WellFormed(t) && t.year < 70
    ensures ClosedDays(t) < 0
  {
    var year := if t.mon < 2 then t.year - 1 else t.year;
    assert DAY_OFFSET[t.mon] <= if t.mon < 2 then 337 else 275;
    assert t.mon == 11 || DAY_OFFSET[t.mon] + t.mday <= 275 || t.mon < 2;
    assert year < 0 ==> MarchDays(year) <= year * 365 + 1;
  }

  /** `ogs_time_from_lt`. Of the dates of the calendar, it refuses exactly those before 1970. */
  method FromLt(t: Tm, usec: int) returns (r: Result<int>)
    ensures Valid(t) ==> r == Ok(Seconds(t) * 1_000_000 + usec)
    ensures r.Ok? ==>
              0 <= t.mon < 12 &&
                r.value == (((ClosedDays(t) * 24 + t.hour) * 60 + t.min) * 60 + t.sec) * 1_000_000 + usec
    ensures WellFormed(t) ==> (r == Error <==> t.year < 70)
    ensures r == Error <==> !(0 <= t.mon < 12) || ((ClosedDays(t) * 24 + t.hour) * 60 + t.min) * 60 + t.sec < 0
  {
    var year := t.year;
    if t.mon < 0 || t.mon >= 12 {
      return Error;
    }
    if t.mon < 2 {
      year := year - 1;
    }
    var days := year * 365 + Div(year, 4) - Div(year, 100) + Div(Div(year, 100) + 3, 4);
    days := days + DAY_OFFSET[t.mon] + t.mday - 1;
    days := days - 25508;
    assert days == ClosedDays(t);
    if Valid(t) {
      ClosedForm(t);
    } else if WellFormed(t) {
      BeforeEpoch(t);
    }
    days := ((days * 24 + t.hour) * 60 + t.min) * 60 + t.sec;
    if days < 0 {
      return Error;
    }
    r := Ok(days * USEC_PER_SEC + usec);
  }

  /** Four instants: the epoch, one of a leap day, the last second of 31 bits, and one of a year that does not leap. */
  lemma KnownInstants(t: Tm)
    ensures t == Tm(70, 0, 1, 0, 0, 0) ==> Valid(t) && Seconds(t) == 0
    ensures t == Tm(100, 1, 29, 12, 34, 56) ==> Valid(t) && Seconds(t) == 951827696
    ensures t == Tm(138, 0, 19, 3, 14, 7) ==> Valid(t) && Seconds(t) == 2147483647
    ensures t == Tm(200, 2, 1, 0, 0, 0) ==> Valid(t) && Seconds(t) == 4107542400
  {
    KnownDays(t.year);
    if Valid(t) {
      ClosedForm(t);
    }
    assert DAY_OFFSET[0] == 306 && DAY_OFFSET[1] == 337 && DAY_OFFSET[2] == 0;
  }

  lemma KnownDays(year: int)
    ensures year == 70 ==> MarchDays(year - 1) == 25202
    ensures year == 100 ==> MarchDays(year - 1) == 36159 && Leap(1900 + year)
    ensures year == 138 ==> MarchDays(year - 1) == 50039
    ensures year == 200 ==> MarchDays(year) == 73049
  {
  }

  // ------------------------------------------------------------------- order

  /** Earlier in the order of the fields. */
  ghost predicate Earlier(a: Tm, b: Tm) {
    a.year < b.year || (a.year == b.year && (a.mon < b.mon || (a.mon == b.mon &&
      (a.mday < b.mday || (a.mday == b.mday &&
    (a.hour < b.hour || (a.hour == b.hour && (a.min < b.min || (a.min == b.min && a.sec < b.sec)))))))))
  }

  lemma {:induction false} MonthsGrow(y: int, m: nat, n: nat)
    requires m < n <= 12
    ensures DaysOfMonths(y, m) + MonthLength(y, m) <= DaysOfMonths(y, n)
  {
    if m < n - 1 {
      MonthsGrow(y, m, n - 1);
    }
  }

  lemma YearIsMonths(y: int)
    ensures DaysOfMonths(y, 12) == YearLength(y)
  {
    MonthsClosed(y, 11);
    ToMarch(y);
    assert DaysOfMonths(y, 12) == DaysOfMonths(y, 11) + MonthLength(y, 11);
  }

  lemma {:induction false} YearsGrow(y: int, z: int)
    requires 1970 <= y < z
    ensures DaysOfYears(y) + YearLength(y) <= DaysOfYears(z)
    decreases z
  {
    if y < z - 1 {
      YearsGrow(y, z - 1);
    }
  }

  lemma WithinYear(t: Tm)
    requires Valid(t)
    ensures DaysOfYears(1900 + t.year) <= Days(t) < DaysOfYears(1900 + t.year) + YearLength(1900 + t.year)
  {
    MonthsGrow(1900 + t.year, t.mon, 12);
    YearIsMonths(1900 + t.year);
  }

  lemma DaysOrder(a: Tm, b: Tm)
    requires Valid(a) && Valid(b)
    requires a.year < b.year || (a.year == b.year && (a.mon < b.mon || (a.mon == b.mon && a.mday < b.mday)))
    ensures Days(a) < Days(b)
  {
    if a.year < b.year {
      WithinYear(a);
      WithinYear(b);
      YearsGrow(1900 + a.year, 1900 + b.year);
    } else if a.mon < b.mon {
      MonthsGrow(1900 + a.year, a.mon, b.mon);
    }
  }

  /** Later dates and times give larger results, and only they do. */
  lemma StrictlyIncreasing(a: Tm, b: Tm)
    requires Valid(a) && Valid(b)
    ensures Seconds(a) < Seconds(b) <==> Earlier(a, b)
  {
    var sameDay := a.year == b.year && a.mon == b.mon && a.mday == b.mday;
    if Earlier(a, b) && !sameDay {
      DaysOrder(a, b);
    }
    if Earlier(b, a) && !sameDay {
      DaysOrder(b, a);
    }
    assert Earlier(a, b) || Earlier(b, a) || a == b;
  }

  // --------------------------------------------------------------------- NTP

  const NTP_OFFSET := 2208988800
  const NTP_ERA := 0x1_0000_0000

  /** `ogs_time_from_ntp32`. */
  function FromNtp32(stamp: nat): (t: nat)
    requires stamp < NTP_ERA
  {
    if stamp < NTP_OFFSET then 0 else (stamp - NTP_OFFSET) * USEC_PER_SEC
  }

  /** `ogs_time_to_ntp32`: the sum is cut to 32 bits. */
  function ToNtp32(t: int): (stamp: nat)
    ensures stamp < NTP_ERA
  {
    (Div(t, USEC_PER_SEC) + NTP_OFFSET) % NTP_ERA
  }

  /** The offset between the epochs is what the closed form counts back to 1 January 1900. */
  lemma OffsetIsEpoch()
    ensures ClosedDays(Tm(0, 0, 1, 0, 0, 0)) * 24 * 60 * 60 == -NTP_OFFSET
  {
    assert DAY_OFFSET[0] == 306;
  }

  /** Seconds since 1970 are stamped as seconds since 1900, and the other way round. */
  lemma EpochShift(s: nat, usec: nat)
    requires s < 0x1_0000_0000 - 2208988800 && usec < 1_000_000
    ensures ToNtp32(s * 1_000_000 + usec) == s + 2208988800
    ensures FromNtp32(s + 2208988800) == s * 1_000_000
  {
    assert (s * 1_000_000 + usec) / 1_000_000 == s;
  }

  /** A stamp comes back exactly if it is not from before 1970. */
  lemma StampReturns(stamp: nat)
    requires stamp < NTP_ERA
    ensures ToNtp32(FromNtp32(stamp)) == stamp <==> stamp >= NTP_OFFSET
  {
    if stamp >= NTP_OFFSET {
      assert (stamp - NTP_OFFSET) * USEC_PER_SEC / USEC_PER_SEC == stamp - NTP_OFFSET;
    }
  }

  /**
    A time comes back in whole seconds exactly if it is after the second before 1970
    and before the stamps overflow in 2036.
  */
  lemma TimeReturns(t: int)
    ensures FromNtp32(ToNtp32(t)) == Div(t, USEC_PER_SEC) * USEC_PER_SEC
            <==> -USEC_PER_SEC < t < (NTP_ERA - NTP_OFFSET) * USEC_PER_SEC
  {
    var s := Div(t, USEC_PER_SEC);
    assert t >= (NTP_ERA - NTP_OFFSET) * USEC_PER_SEC <==> s >= NTP_ERA - NTP_OFFSET;
    assert t <= -USEC_PER_SEC <==> s <= -1;
  }

  /** The first stamp of 1900 and the last second of 1969 both come back as 1 January 1970. */
  lemma LostBefore1970()
    ensures ToNtp32(FromNtp32(0)) == NTP_OFFSET && ToNtp32(FromNtp32(NTP_OFFSET - 1)) == NTP_OFFSET
  {
  }

  /** The first second that overflows comes back as 1970. */
  lemma LostAfter2036()
    ensures var t := (NTP_ERA - NTP_OFFSET) * USEC_PER_SEC; ToNtp32(t) == 0 && FromNtp32(ToNtp32(t)) == 0 != t
  {
  }
}
