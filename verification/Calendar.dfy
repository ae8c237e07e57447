/** The calendar arithmetic of bh_util_localtime_r, for a 64-bit time_t and long and a 32-bit int. */
module Calendar {
  import opened Basics

  // ----- C arithmetic -----

  /** Division that truncates towards zero, and its remainder. */
  function CDiv(a: int, b: int): int
    requires b > 0
  {
    if a >= 0 then a / b else -((-a) / b)
  }

  function CMod(a: int, b: int): int
    requires b > 0
  {
    a - b * CDiv(a, b)
  }

  /** BH_UTIL_DIV: one less where the remainder is negative. */
  function FloorDiv(a: int, b: int): int
    requires b > 0
  {
    CDiv(a, b) - if CMod(a, b) < 0 then 1 else 0
  }

  lemma FloorIsEuclid(a: int, b: int)
    requires b > 0
    ensures FloorDiv(a, b) == a / b && (a >= 0 ==> CMod(a, b) == a % b)
    ensures a < 0 ==> CMod(a, b) == if a % b == 0 then 0 else a % b - b
  {
    if a < 0 {
      var q, r := (-a) / b, (-a) % b;
      assert a == b * (-q) - r;
      if r == 0 {
        DivUnique(a, b, -q, 0);
      } else {
        assert a == b * (-q - 1) + (b - r);
        DivUnique(a, b, -q - 1, b - r);
      }
      assert CMod(a, b) == -r;
    }
  }

  /** The conversion of a 64-bit value to int. */
  function ToInt(a: int): int {
    (a + 0x8000_0000) % 0x1_0000_0000 - 0x8000_0000
  }

  // ----- the proleptic Gregorian calendar -----

  predicate Leap(y: int) {
    y % 4 == 0 && (y % 100 != 0 || y % 400 == 0)
  }

  function YearDays(y: int): int {
    if Leap(y) then 366 else 365
  }

  /** January 1 of the year, in days after January 1, 1970. */
  function Jan1(y: int): int
    decreases if y >= 1970 then y - 1970 else 1970 - y
  {
    if y == 1970 then 0
    else if y > 1970 then Jan1(y - 1) + YearDays(y - 1)
    else Jan1(y + 1) - YearDays(y)
  }

  function MonthDays(m: int, leap: bool): int {
    if m == 1 then (if leap then 29 else 28)
    else if m == 3 || m == 5 || m == 8 || m == 10 then 30
    else 31
  }

  /** The days of the year before the month. */
  function MonthStart(m: nat, leap: bool): int {
    if m == 0 then 0 else MonthStart(m - 1, leap) + MonthDays(m - 1, leap)
  }

  datatype Tm = Tm(sec: int, min: int, hour: int, mday: int, mon: int, year: int, wday: int, yday: int, gmtoff: int)

  /** The fields are a moment of the calendar, `seconds` after the Epoch, which was on a Thursday. */
  ghost predicate DateOf(tm: Tm, seconds: int) {
    && 0 <= tm.sec < 60 && 0 <= tm.min < 60 && 0 <= tm.hour < 24
    && 0 <= tm.mon < 12 && 1 <= tm.mday <= MonthDays(tm.mon, Leap(tm.year + 1900))
    && tm.yday == MonthStart(tm.mon, Leap(tm.year + 1900)) + tm.mday - 1 && 0 <= tm.yday < YearDays(tm.year + 1900)
    && tm.wday == (4 + Jan1(tm.year + 1900) + tm.yday) % 7
    && (Jan1(tm.year + 1900) + tm.yday) * 86400 + tm.hour * 3600 + tm.min * 60 + tm.sec == seconds
  }

  // ----- leap days -----

  /** BH_UTIL_LEAPS_THRU_END_OF. */
  function LeapsThruEndOf(y: int): int {
    FloorDiv(y, 4) - FloorDiv(y, 100) + FloorDiv(y, 400)
  }

  lemma LeapsEuclid(y: int)
    ensures LeapsThruEndOf(y) == y / 4 - y / 100 + y / 400
  {
    FloorIsEuclid(y, 4);
    FloorIsEuclid(y, 100);
    FloorIsEuclid(y, 400);
  }

  lemma StepDiv(y: int, b: int)
    requires b > 0
    ensures y / b == (y - 1) / b + if y % b == 0 then 1 else 0
  {
    if y % b == 0 {
      assert y - 1 == b * (y / b - 1) + (b - 1) by {
        assert b * (y / b - 1) == b * (y / b) - b;
      }
      DivUnique(y - 1, b, y / b - 1, b - 1);
    } else {
      DivUnique(y - 1, b, y / b, y % b - 1);
    }
  }

  lemma LeapsStep(y: int)
    ensures LeapsThruEndOf(y) == LeapsThruEndOf(y - 1) + if Leap(y) then 1 else 0
  {
    hide LeapsThruEndOf, Leap;
    LeapsEuclid(y);
    LeapsEuclid(y - 1);
    StepDiv(y, 4);
    StepDiv(y, 100);
    StepDiv(y, 400);
    LeapMultiple(y, y % 4, y % 100, y % 400);
  }

  lemma LeapMultiple(y: int, m4: int, m100: int, m400: int)
    requires m4 == y % 4 && m100 == y % 100 && m400 == y % 400
    ensures (m100 == 0 ==> m4 == 0) && (m400 == 0 ==> m100 == 0)
    ensures Leap(y) <==> m4 == 0 && (m100 != 0 || m400 == 0)
  {
    if m400 == 0 {
      DivUnique(y, 100, 4 * (y / 400), 0);
    }
    if m100 == 0 {
      DivUnique(y, 4, 25 * (y / 100), 0);
    }
  }

  /** The closed form of the day number of January 1. */
  lemma {:induction false} Jan1Closed(y: int)
    ensures Jan1(y) == 365 * (y - 1970) + LeapsThruEndOf(y - 1) - LeapsThruEndOf(1969)
    decreases if y >= 1970 then y - 1970 else 1970 - y
  {
    if y > 1970 {
      Jan1Closed(y - 1);
      LeapsStep(y - 1);
    } else if y < 1970 {
      Jan1Closed(y + 1);
      LeapsStep(y);
    }
  }

  lemma StepsOf4(y: int, n: nat)
    ensures 0 <= (y + n) / 4 - y / 4 <= (n + 3) / 4
  {
  }

  lemma StepsOf25(y: int, n: nat)
    ensures 0 <= (y + n) / 25 - y / 25 <= n
  {
  }

  lemma Nested(y: int)
    ensures y / 100 == (y / 4) / 25 && y / 400 == (y / 100) / 4
  {
  }

  /** In `n` years there are at most (n + 3) / 4 leap days. */
  lemma LeapsBetween(y: int, n: nat)
    ensures 0 <= LeapsThruEndOf(y + n) - LeapsThruEndOf(y) <= (n + 3) / 4
  {
    hide LeapsThruEndOf;
    var z := y + n;
    LeapsEuclid(y);
    LeapsEuclid(z);
    StepsOf4(y, n);
    var quarters := z / 4 - y / 4;
    assert 0 <= z / 100 - y / 100 <= quarters by {
      Nested(y);
      Nested(z);
      StepsOf25(y / 4, quarters);
    }
    var hundreds := z / 100 - y / 100;
    assert 0 <= z / 400 - y / 400 <= hundreds by {
      Nested(y);
      Nested(z);
      StepsOf4(y / 100, hundreds);
    }
  }

  // ----- the guess -----

  /** The year the loop guesses next, assuming 365 days per year. */
  function Guess(y: int, days: int): int {
    y + FloorDiv(days, 365)
  }

  predicate Inside(y: int, days: int) {
    0 <= days < YearDays(y)
  }

  function Abs(n: int): nat {
    if n < 0 then -n else n
  }

  /** What is left of the way to the right year: a guess can overshoot in both directions, but if it
      misses, it misses by fewer days than before. */
  function Distance(y: int, days: int): nat {
    if Inside(y, days) then 0 else Abs(days)
  }

  lemma GuessCloser(y: int, days: int)
    requires !Inside(y, days)
    ensures var yg := Guess(y, days); Distance(yg, days - (Jan1(yg) - Jan1(y))) < Distance(y, days)
  {
    hide Jan1, LeapsThruEndOf, Guess, Leap;
    var q, r, yg := days / 365, days % 365, Guess(y, days);
    GuessYear(y, days);
    GuessSameDay(y, yg);
    if q >= 0 {
      LeapsBetween(y - 1, q);
    } else {
      LeapsBetween(yg - 1, -q);
      if q == -1 {
        LeapsStep(yg);
      }
    }
  }

  lemma GuessYear(y: int, days: int)
    ensures Guess(y, days) == y + days / 365
  {
    FloorIsEuclid(days, 365);
  }

  /** The guess and the adjustment of the loop keep the day they stand for. */
  lemma GuessSameDay(y: int, yg: int)
    ensures Jan1(yg) - Jan1(y) == (yg - y) * 365 + LeapsThruEndOf(yg - 1) - LeapsThruEndOf(y - 1)
  {
    Jan1Closed(y);
    Jan1Closed(yg);
  }

  /** The month table. */
  const MON_YDAY: seq<seq<int>> := [
    [0, 31, 59, 90, 120, 151, 181, 212, 243, 273, 304, 334, 365],
    [0, 31, 60, 91, 121, 152, 182, 213, 244, 274, 305, 335, 366]]

  lemma MonthTable(leap: bool)
    ensures var ip := MON_YDAY[if leap then 1 else 0]; |ip| == 13 && forall m :: 0 <= m <= 12 ==> ip[m] == MonthStart(m, leap)
  {
    var ip := MON_YDAY[if leap then 1 else 0];
    assert MonthStart(0, leap) == 0 && MonthStart(1, leap) == ip[1] && MonthStart(2, leap) == ip[2];
    assert MonthStart(3, leap) == ip[3] && MonthStart(4, leap) == ip[4];
    assert MonthStart(5, leap) == ip[5] && MonthStart(6, leap) == ip[6];
    assert MonthStart(7, leap) == ip[7] && MonthStart(8, leap) == ip[8];
    assert MonthStart(9, leap) == ip[9] && MonthStart(10, leap) == ip[10];
    assert MonthStart(11, leap) == ip[11] && MonthStart(12, leap) == ip[12];
  }

  /** Days and seconds of the day, from a time and an offset. */
  method SplitDays(t: int, gmtoff: int) returns (days: int, rem: int)
    requires Long(t) && Long(gmtoff - 86400) && Long(gmtoff + 86400)
    ensures days * 86400 + rem == t + gmtoff && 0 <= rem < 86400
    ensures Abs(days) < MANY_DAYS
  {
    days, rem := CDiv(t, 86400), CMod(t, 86400);
    rem := rem + gmtoff;
    while rem < 0
      invariant days * 86400 + rem == t + gmtoff && Long(rem) && (rem < 86400 || rem <= gmtoff + 86400)
    {
      rem := rem + 86400;
      days := days - 1;
    }
    while rem >= 86400
      invariant days * 86400 + rem == t + gmtoff && 0 <= rem
    {
      rem := rem - 86400;
      days := days + 1;
    }
  }

  const MANY_DAYS := 300_000_000_000_000

  lemma YearInReach(y: int)
    requires Abs(Jan1(y)) < 2 * MANY_DAYS
    ensures Abs(y - 1970) < 2_000_000_000_000
  {
    if y >= 1970 {
      YearsApart(1970, y);
    } else {
      YearsApart(y, 1970);
    }
  }

  lemma NextGuess(y: int, days: int, yg: int, days0: int)
    requires !Inside(y, days) && Jan1(y) + days == days0 && Abs(days) < MANY_DAYS && Abs(days0) < MANY_DAYS
    requires yg == y + CDiv(days, 365) - (if CMod(days, 365) < 0 then 1 else 0)
    ensures var left := days - ((yg - y) * 365 + LeapsThruEndOf(yg - 1) - LeapsThruEndOf(y - 1));
      && Jan1(yg) + left == days0 && Abs(left) < MANY_DAYS && Distance(yg, left) < Distance(y, days)
      && Long(yg * 365) && Long((yg - y) * 365 + LeapsThruEndOf(yg - 1) - LeapsThruEndOf(y - 1))
  {
    hide Jan1, CDiv, CMod, LeapsThruEndOf, Leap;
    assert yg == Guess(y, days);
    GuessCloser(y, days);
    GuessSameDay(y, yg);
    YearInReach(yg);
  }

  /** The loop that guesses the year. No value in it leaves the range of a long. */
  method FindYear(days0: int) returns (y: int, days: int)
    requires Abs(days0) < MANY_DAYS
    ensures Inside(y, days) && Jan1(y) + days == days0
  {
    assert Jan1(1970) == 0;
    hide Jan1, CDiv, CMod, LeapsThruEndOf, Leap;
    y, days := 1970, days0;
    while days < 0 || days >= (if Leap(y) then 366 else 365)
      invariant Jan1(y) + days == days0 && Abs(days) < MANY_DAYS
      decreases Distance(y, days)
    {
      var yg := y + CDiv(days, 365) - (if CMod(days, 365) < 0 then 1 else 0);
      NextGuess(y, days, yg, days0);
      days := days - ((yg - y) * 365 + LeapsThruEndOf(yg - 1) - LeapsThruEndOf(y - 1));
      y := yg;
    }
  }

  /** The loop over the month table, from December down. */
  method FindMonth(y: int, yday: int) returns (mon: int, mday: int)
    requires Inside(y, yday)
    ensures 0 <= mon < 12 && 1 <= mday <= MonthDays(mon, Leap(y)) && yday == MonthStart(mon, Leap(y)) + mday - 1
  {
    var ip := MON_YDAY[if Leap(y) then 1 else 0];
    MonthTable(Leap(y));
    mon := 11;
    while yday < ip[mon]
      invariant 0 <= mon < 12 && yday < ip[mon + 1]
    {
      mon := mon - 1;
    }
    assert MonthStart(mon + 1, Leap(y)) == MonthStart(mon, Leap(y)) + MonthDays(mon, Leap(y));
    mday := yday - ip[mon] + 1;
  }

  lemma TimeOfDay(rem: int)
    requires 0 <= rem < 86400
    ensures var hour, left := CDiv(rem, 3600), CMod(rem, 3600);
      && 0 <= hour < 24 && 0 <= CDiv(left, 60) < 60 && 0 <= CMod(left, 60) < 60
      && hour * 3600 + CDiv(left, 60) * 60 + CMod(left, 60) == rem
  {
  }

  lemma FitsInt(a: int)
    ensures ToInt(a) == a <==> -0x8000_0000 <= a < 0x8000_0000
  {
  }

  /** bh_util_localtime_r: the Gregorian date and time of t + gmtoff; None exactly where the year
      does not fit an int. */
  method LocalTime(t: int, gmtoff: int) returns (r: Option<Tm>)
    requires Long(t) && Long(gmtoff - 86400) && Long(gmtoff + 86400)
    ensures r.Some? ==> DateOf(r.value, t + gmtoff) && r.value.gmtoff == gmtoff
    ensures r == None <==> !exists tm :: DateOf(tm, t + gmtoff) && -0x8000_0000 <= tm.year < 0x8000_0000
  {
    hide Jan1, Leap, MonthStart, ToInt, CDiv, CMod;
    var days, rem := SplitDays(t, gmtoff);
    ghost var ofDay := rem;
    TimeOfDay(rem);
    var hour := CDiv(rem, 3600);
    rem := CMod(rem, 3600);
    var min, sec := CDiv(rem, 60), CMod(rem, 60);
    var wday := CMod(4 + days, 7);
    if wday < 0 {
      wday := wday + 7;
    }
    FloorIsEuclid(4 + days, 7);
    assert wday == (4 + days) % 7;
    var y, yday := FindYear(days);
    var year := ToInt(y - 1900);
    var mon, mday := FindMonth(y, yday);
    ghost var tm := Tm(sec, min, hour, mday, mon, y - 1900, wday, yday, gmtoff);
    assert DateOf(tm, t + gmtoff);
    OnlyDate(tm, t + gmtoff);
    FitsInt(y - 1900);
    if year != y - 1900 {
      return None;
    }
    return Some(Tm(sec, min, hour, mday, mon, year, wday, yday, gmtoff));
  }

  lemma {:induction false} YearsApart(y: int, y': int)
    requires y <= y'
    ensures Jan1(y') - Jan1(y) >= 365 * (y' - y)
    ensures y < y' ==> Jan1(y') - Jan1(y) >= YearDays(y)
    decreases y' - y
  {
    if y < y' {
      YearsApart(y + 1, y');
      assert Jan1(y + 1) == Jan1(y) + YearDays(y);
    }
  }

  lemma {:induction false} MonthsApart(m: nat, m': nat, leap: bool)
    requires m < m'
    ensures MonthStart(m', leap) >= MonthStart(m, leap) + MonthDays(m, leap)
    decreases m'
  {
    if m + 1 < m' {
      MonthsApart(m, m' - 1, leap);
    }
  }

  lemma SameTime(d: int, h: int, m: int, s: int, d': int, h': int, m': int, s': int)
    requires 0 <= h < 24 && 0 <= m < 60 && 0 <= s < 60 && 0 <= h' < 24 && 0 <= m' < 60 && 0 <= s' < 60
    requires d * 86400 + h * 3600 + m * 60 + s == d' * 86400 + h' * 3600 + m' * 60 + s'
    ensures d == d' && h == h' && m == m' && s == s'
  {
  }

  /** A moment has only one date. */
  lemma DateUnique(a: Tm, b: Tm, seconds: int)
    requires DateOf(a, seconds) && DateOf(b, seconds)
    ensures a.(gmtoff := 0) == b.(gmtoff := 0)
  {
    hide Jan1, Leap, MonthStart;
    var da, db := Jan1(a.year + 1900) + a.yday, Jan1(b.year + 1900) + b.yday;
    SameTime(da, a.hour, a.min, a.sec, db, b.hour, b.min, b.sec);
    if a.year < b.year {
      YearsApart(a.year + 1900, b.year + 1900);
    } else if b.year < a.year {
      YearsApart(b.year + 1900, a.year + 1900);
    }
    var leap := Leap(a.year + 1900);
    if a.mon < b.mon {
      MonthsApart(a.mon, b.mon, leap);
    } else if b.mon < a.mon {
      MonthsApart(b.mon, a.mon, leap);
    }
  }

  lemma OnlyDate(tm: Tm, seconds: int)
    requires DateOf(tm, seconds)
    ensures forall other :: DateOf(other, seconds) ==> other.year == tm.year
  {
    forall other | DateOf(other, seconds)
      ensures other.year == tm.year
    {
      DateUnique(tm, other, seconds);
    }
  }

  /** "Seconds Since the Epoch", section 4.16 of the POSIX.1-2017 Base Definitions, with divisions
      that round down. */
  function SecondsSinceEpoch(tm: Tm): int {
    tm.sec + tm.min * 60 + tm.hour * 3600 + tm.yday * 86400 + (tm.year - 70) * 31536000
    + ((tm.year - 69) / 4) * 86400 - ((tm.year - 1) / 100) * 86400 + ((tm.year + 299) / 400) * 86400
  }

  /** The fields are the inverse of that formula. */
  lemma DateIsPosix(tm: Tm, seconds: int)
    requires DateOf(tm, seconds)
    ensures SecondsSinceEpoch(tm) == seconds
  {
    hide Jan1, Leap, MonthStart, LeapsThruEndOf;
    var y := tm.year + 1900;
    Jan1Closed(y);
    LeapsEuclid(y - 1);
    LeapsEuclid(1969);
    Shifted(tm.year);
  }

  lemma Shifted(year: int)
    ensures (year + 1899) / 4 - 1969 / 4 == (year - 69) / 4
    ensures (year + 1899) / 100 - 1969 / 100 == (year - 1) / 100
    ensures (year + 1899) / 400 - 1969 / 400 == (year + 299) / 400
  {
  }

  // ----- the date without a table of months -----

  /** The days before the month, with the months counted from March. */
  function BeforeMonth(m: int): int {
    (153 * m + 2) / 5
  }

  predicate Gregorian(y: int) {
    y % 400 == 0 || (y % 4 == 0 && y % 100 != 0)
  }

  function MonthLength(mon: int, leap: bool): int {
    if mon == 1 then (if leap then 29 else 28)
    else BeforeMonth((mon + 10) % 12 + 1) - BeforeMonth((mon + 10) % 12)
  }

  function DayOfYear(mon: int, mday: int, leap: bool): int {
    BeforeMonth((mon + 10) % 12) + mday - 1 + if mon < 2 then -306 else if leap then 60 else 59
  }

  function LeapDays(y: int): int {
    y / 4 - y / 100 + y / 400
  }

  /** The days since the Epoch: a year that begins in March has its leap day at the end. */
  function DayNumber(mon: int, mday: int, y: int): int {
    var y' := if mon < 2 then y - 1 else y;
    365 * y' + LeapDays(y') + BeforeMonth((mon + 10) % 12) + mday - 1 - 719468
  }

  /** The date in closed form, from nothing but 153 days in any five months from March on. */
  ghost predicate Civil(tm: Tm, seconds: int) {
    var y := tm.year + 1900;
    var day, leap := DayNumber(tm.mon, tm.mday, y), Gregorian(y);
    && 0 <= tm.mon <= 11 && 1 <= tm.mday <= MonthLength(tm.mon, leap) && tm.yday == DayOfYear(tm.mon, tm.mday, leap)
    && 0 <= tm.sec <= 59 && 0 <= tm.min <= 59 && 0 <= tm.hour <= 23
    && seconds == day * 86400 + tm.hour * 3600 + tm.min * 60 + tm.sec
    && tm.wday == (day + 4) % 7
  }

  lemma MonthsFromMarch()
    ensures BeforeMonth(0) == 0 && BeforeMonth(1) == 31 && BeforeMonth(2) == 61 && BeforeMonth(3) == 92 && BeforeMonth(4) == 122
    ensures BeforeMonth(5) == 153 && BeforeMonth(6) == 184 && BeforeMonth(7) == 214 && BeforeMonth(8) == 245 && BeforeMonth(9) == 275
    ensures BeforeMonth(10) == 306 && BeforeMonth(11) == 337
  {
  }

  lemma MonthClosed(mon: nat, leap: bool)
    requires mon < 12
    ensures MonthStart(mon, leap) == DayOfYear(mon, 1, leap) && MonthDays(mon, leap) == MonthLength(mon, leap)
    ensures 0 <= DayOfYear(mon, 1, leap) && DayOfYear(mon, 1, leap) + MonthLength(mon, leap) <= if leap then 366 else 365
  {
    MonthTable(leap);
    MonthsFromMarch();
    hide MonthStart, BeforeMonth;
    assert MonthStart(mon, leap) == MON_YDAY[if leap then 1 else 0][mon];
    assert (mon + 10) % 12 == if mon < 2 then mon + 10 else mon - 2;
  }

  lemma LeapsAre(y: int)
    ensures LeapsThruEndOf(y) == LeapDays(y) && LeapDays(1969) == 477
  {
    LeapsEuclid(y);
  }

  lemma DayClosed(mon: int, mday: int, y: int)
    requires 0 <= mon < 12
    ensures DayNumber(mon, mday, y) == Jan1(y) + DayOfYear(mon, mday, Leap(y))
  {
    hide Jan1, LeapsThruEndOf, BeforeMonth, LeapDays, Leap;
    Jan1Closed(y);
    LeapsAre(y - 1);
    LeapsAre(y);
    LeapsAre(1969);
    LeapsStep(y);
  }

  lemma LeapIs(y: int)
    ensures Leap(y) == Gregorian(y)
  {
  }

  /** The fields are those of a moment exactly if they have the closed form. */
  lemma DateIsCivil(tm: Tm, seconds: int)
    ensures DateOf(tm, seconds) <==> Civil(tm, seconds)
  {
    hide Jan1, MonthStart, MonthDays, Leap, DayNumber, MonthLength, BeforeMonth, Gregorian;
    var y := tm.year + 1900;
    LeapIs(y);
    if 0 <= tm.mon < 12 {
      MonthClosed(tm.mon, Leap(y));
      DayClosed(tm.mon, tm.mday, y);
    }
  }

  lemma KnownDate(tm: Tm, day: int, seconds: int)
    requires 0 <= tm.mon <= 11 && 1 <= tm.mday <= MonthLength(tm.mon, Gregorian(tm.year + 1900))
    requires tm.yday == DayOfYear(tm.mon, tm.mday, Gregorian(tm.year + 1900)) && DayNumber(tm.mon, tm.mday, tm.year + 1900) == day
    requires 0 <= tm.sec <= 59 && 0 <= tm.min <= 59 && 0 <= tm.hour <= 23
    requires seconds == day * 86400 + tm.hour * 3600 + tm.min * 60 + tm.sec && tm.wday == (day + 4) % 7
    ensures DateOf(tm, seconds)
  {
    hide DateOf, DayNumber, DayOfYear, MonthLength;
    DateIsCivil(tm, seconds);
  }

  /** Days the calendar is known by: the Epoch, a Thursday, and the second before it; a leap day that the
      rule of 400 years gives, and one that the rule of 100 takes; the turn from April to May. */
  lemma KnownDates()
    ensures DateOf(Tm(0, 0, 0, 1, 0, 70, 4, 0, 0), 0)
    ensures DateOf(Tm(59, 59, 23, 31, 11, 69, 3, 364, 0), -1)
    ensures DateOf(Tm(0, 0, 0, 1, 4, 70, 5, 120, 0), 10368000)
    ensures DateOf(Tm(0, 0, 0, 29, 1, 100, 2, 59, 0), 951782400)
    ensures DateOf(Tm(0, 0, 0, 1, 2, 200, 1, 59, 0), 4107542400)
  {
    hide DateOf;
    KnownDate(Tm(0, 0, 0, 1, 0, 70, 4, 0, 0), 0, 0);
    KnownDate(Tm(59, 59, 23, 31, 11, 69, 3, 364, 0), -1, -1);
    KnownDate(Tm(0, 0, 0, 1, 4, 70, 5, 120, 0), 120, 10368000);
    KnownDate(Tm(0, 0, 0, 29, 1, 100, 2, 59, 0), 11016, 951782400);
    KnownDate(Tm(0, 0, 0, 1, 2, 200, 1, 59, 0), 47541, 4107542400);
  }

  /** A day later it is the same time of the next day of the week. */
  lemma NextDay(tm: Tm, tm': Tm, seconds: int)
    requires DateOf(tm, seconds) && DateOf(tm', seconds + 86400)
    ensures tm'.wday == if tm.wday == 6 then 0 else tm.wday + 1
    ensures tm'.hour == tm.hour && tm'.min == tm.min && tm'.sec == tm.sec
  {
    hide Jan1, Leap, MonthStart;
    var day, day' := Jan1(tm.year + 1900) + tm.yday, Jan1(tm'.year + 1900) + tm'.yday;
    SameTime(day + 1, tm.hour, tm.min, tm.sec, day', tm'.hour, tm'.min, tm'.sec);
  }
}
