/** Broken-down time of libc/src/time.c: gmtime_r and mktime, against the Gregorian calendar counted day by
    day. */
module Calendar {
  import opened Division

  // ---------- the calendar, one year and one month at a time ----------

  predicate Leap(y: int) { y % 4 == 0 && (y % 100 != 0 || y % 400 == 0) }

  function YearLength(y: int): int { if Leap(y) then 366 else 365 }

  function MonthLength(y: int, m: nat): int {
    if m == 1 then (if Leap(y) then 29 else 28) else if m == 3 || m == 5 || m == 8 || m == 10 then 30 else 31
  }

  /** Days from the Epoch to the first day of year `y`. */
  function YearStart(y: int): int
    decreases if y < 1970 then 1970 - y else y - 1970
  {
    if y == 1970 then 0 else if y > 1970 then YearStart(y - 1) + YearLength(y - 1) else YearStart(y + 1) - YearLength(y)
  }

  /** Days from the first of the year to the first of month `m`. */
  function MonthStart(y: int, m: nat): int {
    if m == 0 then 0 else MonthStart(y, m - 1) + MonthLength(y, m - 1)
  }

  /** struct tm, with tm_year counted from 1900 in 32 bits; tm_isdst is always -1. */
  datatype Tm = Tm(sec: int, min: int, hour: int, mday: int, mon: int, year: int, wday: int, yday: int)

  predicate Proper(y: int, tm: Tm) {
    && 0 <= tm.sec < 60 && 0 <= tm.min < 60 && 0 <= tm.hour < 24
    && 0 <= tm.mon < 12 && 1 <= tm.mday <= MonthLength(y, tm.mon)
    && tm.yday == MonthStart(y, tm.mon) + tm.mday - 1
  }

  /** The time named by `tm` in year `y`.  A day of the year other than 0 is preferred to month and day, as in
      mktime. */
  function Stamp(y: int, tm: Tm): int {
    var days := if tm.yday != 0 then tm.yday
                else if tm.mon > 11 then 0
                else MonthStart(y, if tm.mon < 0 then 0 else tm.mon) + tm.mday - 1;
    86400 * (YearStart(y) + days) + 3600 * tm.hour + 60 * tm.min + tm.sec
  }

  // ---------- the code ----------

  /** Division as in C, towards zero, and its remainder. */
  function Quo(a: int, b: int): int
    requires b > 0
  {
    if a < 0 then -(-a / b) else a / b
  }

  function Rem(a: int, b: int): int
    requires b > 0
  {
    a - Quo(a, b) * b
  }

  /** Conversion to a 32-bit int. */
  function Int32(x: int): int { (x + 0x8000_0000) % 0x1_0000_0000 - 0x8000_0000 }

  /** Day `doy` of the year that began with March of `year`. */
  datatype MarchDay = MarchDay(year: int, doy: int)

  /** A broken-down time together with its year before that is stored as an int. */
  datatype Civil = Civil(year: int, tm: Tm)

  /** Lines 61-69, for day `d` after the Epoch. */
  function MarchDayOf(d: int): MarchDay {
    var z := d + 719468;
    var era := Quo(if z >= 0 then z else z - 146096, 146097);
    var doe := z - era * 146097;
    var yoe := Quo(doe - Quo(doe, 1460) + Quo(doe, 36524) - Quo(doe, 146096), 365);
    MarchDay(yoe + era * 400, doe - (365 * yoe + Quo(yoe, 4) - Quo(yoe, 100)))
  }

  /** Lines 72-84. */
  function CivilOf(m: MarchDay, sec: int, min: int, hour: int, wday: int): Civil {
    var mp := Quo(5 * m.doy + 2, 153);
    var mday := m.doy - Quo(153 * mp + 2, 5) + 1;
    var janFeb := mp >= 10;
    var mon := if janFeb then mp - 10 else mp + 2;
    var y := m.year + if janFeb then 1 else 0;
    var leap := (Rem(y, 4) == 0 && Rem(y, 100) != 0) || Rem(y, 400) == 0;
    var yday := if janFeb then m.doy - 306 else m.doy + 59 + if leap then 1 else 0;
    Civil(y, Tm(sec, min, hour, mday, mon, Int32(y - 1900), wday, yday))
  }

  /** Lines 42-49: the day and the second of the day. */
  function Day(t: int): int { if Rem(t, 86400) < 0 then Quo(t, 86400) - 1 else Quo(t, 86400) }

  function Second(t: int): int { if Rem(t, 86400) < 0 then Rem(t, 86400) + 86400 else Rem(t, 86400) }

  /** Lines 57-58. */
  function WeekDay(d: int): int { if Rem(d + 4, 7) < 0 then Rem(d + 4, 7) + 7 else Rem(d + 4, 7) }

  /** gmtime_r. */
  function Gmtime(t: int): Civil {
    var s := Second(t);
    CivilOf(MarchDayOf(Day(t)), Rem(s, 60), Rem(Quo(s, 60), 60), Quo(s, 3600), WeekDay(Day(t)))
  }

  /** Lines 106-114 of year_to_time, for a year counted from 1970. */
  function Leaps(y: int, leap: bool): int {
    var leaps0 := Quo(y + if y < 0 then -2 else 2, 4);
    var leaps1 := leaps0 - if y < 0 then Quo(y - 30, 100) else Quo(y + 70, 100);
    var leaps2 := leaps1 + if y < 0 then Quo(y - 30, 400) else Quo(y + 370, 400);
    if leap && y >= 0 then leaps2 - 1 else leaps2
  }

  /** year_to_time, for a year counted from 1900. */
  function YearToTime(year: int): (int, bool) {
    var y := year - 70;
    var leap := Rem(y - 2, 4) == 0 && (Rem(y - 30, 100) != 0 || Rem(y - 30, 400) == 0);
    ((y * 365 + Leaps(y, leap)) * 24 * 60 * 60, leap)
  }

  // ---------- division ----------

  lemma Factors(y: int)
    ensures y % 400 == 0 ==> y % 100 == 0
    ensures y % 100 == 0 ==> y % 4 == 0
  {
    Shift(y % 400, 100, 4 * (y / 400));
    Shift(y % 100, 4, 25 * (y / 100));
  }

  lemma Ceiling(a: int, k: int)
    requires k > 0 && a < 0
    ensures Quo(a, k) == (a + k - 1) / k
  {
    var n := -a / k;
    assert -a == k * n + -a % k && k * -n == -(k * n);
    Floor(a + k - 1, k, -n);
  }

  lemma Euclid(a: int, k: int)
    requires k > 0
    ensures var r := Rem(a, k);
      if r < 0 then r + k == a % k && Quo(a, k) - 1 == a / k else r == a % k && Quo(a, k) == a / k
  {
    var n := Quo(a, k);
    assert n * k == k * n;
    if a < 0 {
      assert -a == k * (-a / k) + -a % k;
      assert n * k == -(k * (-a / k));
      if -a % k == 0 { Floor(a, k, n); } else { assert k * (n - 1) == k * n - k; Floor(a, k, n - 1); }
    }
    assert a == k * (a / k) + a % k;
  }

  lemma RemZero(a: int, k: int)
    requires k > 0
    ensures Rem(a, k) == 0 <==> a % k == 0
  {
    Euclid(a, k);
  }

  // ---------- years in closed form ----------

  /** Days from 1 March of year 0 to 1 March of year `y`. */
  function March(y: int): int { 365 * y + y / 4 - y / 100 + y / 400 }

  lemma LeapDays(y: int)
    ensures y / 4 - y / 100 + y / 400
         == (y - 1) / 4 - (y - 1) / 100 + (y - 1) / 400 + if Leap(y) then 1 else 0
  {
    Down(y, 4);
    Down(y, 100);
    Down(y, 400);
    Factors(y);
  }

  lemma MarchStep(y: int)
    ensures March(y) == March(y - 1) + YearLength(y)
  {
    LeapDays(y);
  }

  lemma {:induction false} YearStartMarch(y: int)
    ensures YearStart(y) == March(y - 1) - 719162
    decreases if y < 1970 then 1970 - y else y - 1970
  {
    if y > 1970 {
      YearStartMarch(y - 1);
      MarchStep(y - 1);
    } else if y < 1970 {
      YearStartMarch(y + 1);
      MarchStep(y);
    }
  }

  lemma LeapsAfter(y: int)
    requires y >= 0
    ensures Quo(y + 2, 4) - Quo(y + 70, 100) + Quo(y + 370, 400)
         == (y + 1970) / 4 - (y + 1970) / 100 + (y + 1970) / 400 - 477
  {
    Shift(y + 2, 4, 492);
    Shift(y + 70, 100, 19);
    Shift(y + 370, 400, 4);
  }

  lemma LeapsBefore(y: int)
    requires y < 0
    ensures Quo(y - 2, 4) - Quo(y - 30, 100) + Quo(y - 30, 400)
         == (y + 1969) / 4 - (y + 1969) / 100 + (y + 1969) / 400 - 477
  {
    Ceiling(y - 2, 4);
    Ceiling(y - 30, 100);
    Ceiling(y - 30, 400);
    Shift(y + 1, 4, 492);
    Shift(y + 69, 100, 19);
    Shift(y + 369, 400, 4);
  }

  lemma LeapTest(y: int)
    ensures (Rem(y - 2, 4) == 0 && (Rem(y - 30, 100) != 0 || Rem(y - 30, 400) == 0)) == Leap(y + 1970)
  {
    RemZero(y - 2, 4);
    RemZero(y - 30, 100);
    RemZero(y - 30, 400);
    Shift(y - 2, 4, 493);
    Shift(y - 30, 100, 20);
    Shift(y - 30, 400, 5);
  }

  lemma LeapsOk(y: int)
    ensures y * 365 + Leaps(y, Leap(y + 1970)) == YearStart(y + 1970)
  {
    YearStartMarch(y + 1970);
    LeapDays(y + 1970);
    if y < 0 { LeapsBefore(y); } else { LeapsAfter(y); }
  }

  lemma YearToTimeOk(year: int)
    ensures YearToTime(year) == (86400 * YearStart(year + 1900), Leap(year + 1900))
  {
    LeapsOk(year - 70);
    LeapTest(year - 70);
  }

  lemma Eras(y: int, era: int)
    ensures March(y + era * 400) == March(y) + era * 146097
  {
    Shift(y, 4, 100 * era);
    Shift(y, 100, 4 * era);
    Shift(y, 400, era);
  }

  lemma LeapEras(y: int, era: int)
    ensures Leap(y + era * 400) == Leap(y)
  {
    Shift(y, 4, 100 * era);
    Shift(y, 100, 4 * era);
    Shift(y, 400, era);
  }

  /** Day `doe` of an era in centuries, four-year cycles, years and days. */
  lemma EraParts(doe: int) returns (b: int, k: int, j: int, doy: int)
    requires 0 <= doe < 146097
    ensures 0 <= b < 4 && 0 <= k < 25 && 0 <= j < 4 && 0 <= doy < 366
    ensures doe == 36524 * b + 1461 * k + 365 * j + doy
    ensures doy == 365 ==> j == 3 && (k < 24 || b == 3)
  {
    b := if doe < 36524 then 0 else if doe < 73048 then 1 else if doe < 109572 then 2 else 3;
    var r := doe - 36524 * b;
    k := r / 1461;
    var q := r - 1461 * k;
    j := if q < 365 then 0 else if q < 730 then 1 else if q < 1095 then 2 else 3;
    doy := q - 365 * j;
  }

  lemma EraYear(doe: int, b: int, k: int, j: int, doy: int)
    requires 0 <= b < 4 && 0 <= k < 25 && 0 <= j < 4 && 0 <= doy < 366
    requires doe == 36524 * b + 1461 * k + 365 * j + doy
    requires doy == 365 ==> j == 3 && (k < 24 || b == 3)
    ensures var y := 100 * b + 4 * k + j; March(y) + doy == doe && doy < YearLength(y + 1)
  {
    var y := 100 * b + 4 * k + j;
    Floor(y, 4, 25 * b + k);
    Floor(y, 100, b);
    Floor(y, 400, 0);
    if doy == 365 {
      assert y + 1 == 4 * (25 * b + k + 1) + 0;
      Shift(0, 4, 25 * b + k + 1);
      if k < 24 { Floor(y + 1, 100, b); }
    }
  }

  lemma EraNumbers(doe: int, b: int, k: int, j: int, doy: int)
    requires 0 <= b < 4 && 0 <= k < 25 && 0 <= j < 4 && 0 <= doy < 366
    requires doe == 36524 * b + 1461 * k + 365 * j + doy
    requires doy == 365 ==> j == 3 && (k < 24 || b == 3)
    ensures (doe - doe / 1460 + doe / 36524 - doe / 146096) / 365 == 100 * b + 4 * k + j
  {
    var e := if 24 * b + k + 365 * j + doy < 1460 then 0 else 1;
    Floor(doe, 1460, 25 * b + k + e);
    var last := if doe == 146096 then 1 else 0;
    Floor(doe, 36524, b + last);
    Floor(doe, 146096, last);
    Floor(doe - doe / 1460 + doe / 36524 - doe / 146096, 365, 100 * b + 4 * k + j);
  }

  /** Lines 64-69 find the year of the era and the day of that year. */
  lemma YearOfEra(doe: int)
    requires 0 <= doe < 146097
    ensures var y := (doe - doe / 1460 + doe / 36524 - doe / 146096) / 365;
      0 <= y < 400 && 0 <= doe - March(y) < YearLength(y + 1)
  {
    var b, k, j, doy := EraParts(doe);
    EraYear(doe, b, k, j, doy);
    EraNumbers(doe, b, k, j, doy);
  }

  // ---------- months ----------

  function CommonStart(m: nat): int
    requires m <= 12
  {
    [0, 31, 59, 90, 120, 151, 181, 212, 243, 273, 304, 334, 365][m]
  }

  lemma {:induction false} MonthTable(y: int, m: nat)
    requires m <= 12
    ensures MonthStart(y, m) == CommonStart(m) + if m >= 2 && Leap(y) then 1 else 0
  {
    if m > 0 { MonthTable(y, m - 1); }
  }

  /** Lines 72-77: month `mp` after March, of a year that began with March of year `y`, and the day in it. */
  lemma MonthOfYear(y: int, doy: int)
    requires 0 <= doy < YearLength(y + 1)
    ensures var mp := (5 * doy + 2) / 153;
      var mday := doy - (153 * mp + 2) / 5 + 1;
      && 0 <= mp < 12
      && (mp >= 10 ==> 1 <= mday <= MonthLength(y + 1, mp - 10) && MonthStart(y + 1, mp - 10) + mday - 1 == doy - 306)
      && (mp < 10 ==> 1 <= mday <= MonthLength(y, mp + 2)
                      && MonthStart(y, mp + 2) + mday - 1 == doy + 59 + if Leap(y) then 1 else 0)
  {
    var mp := (5 * doy + 2) / 153;
    if mp >= 10 { MonthTable(y + 1, mp - 10); } else { MonthTable(y, mp + 2); }
  }

  // ---------- gmtime ----------

  lemma Era(z: int)
    ensures Quo(if z >= 0 then z else z - 146096, 146097) == z / 146097
  {
    if z < 0 { Ceiling(z - 146096, 146097); }
  }

  lemma LeapYear(y: int)
    ensures ((Rem(y, 4) == 0 && Rem(y, 100) != 0) || Rem(y, 400) == 0) == Leap(y)
  {
    RemZero(y, 4);
    RemZero(y, 100);
    RemZero(y, 400);
    Factors(y);
  }

  lemma MarchDayIs(d: int, era: int, doe: int, yoe: int)
    requires era == (d + 719468) / 146097 && doe == d + 719468 - era * 146097
    requires yoe == (doe - doe / 1460 + doe / 36524 - doe / 146096) / 365 && 0 <= yoe < 400 && 0 <= doe
    ensures MarchDayOf(d) == MarchDay(yoe + era * 400, doe - March(yoe))
  {
    Era(d + 719468);
    Floor(yoe, 400, 0);
  }

  lemma MarchDayOk(d: int)
    ensures var m := MarchDayOf(d); 0 <= m.doy < YearLength(m.year + 1) && March(m.year) + m.doy == d + 719468
  {
    var era := (d + 719468) / 146097;
    var doe := d + 719468 - era * 146097;
    YearOfEra(doe);
    var yoe := (doe - doe / 1460 + doe / 36524 - doe / 146096) / 365;
    MarchDayIs(d, era, doe, yoe);
    Eras(yoe, era);
    LeapEras(yoe + 1, era);
  }

  lemma CivilOk(m: MarchDay, sec: int, min: int, hour: int, wday: int)
    requires 0 <= m.doy < YearLength(m.year + 1)
    ensures var c := CivilOf(m, sec, min, hour, wday);
      && 0 <= c.tm.mon < 12 && 1 <= c.tm.mday <= MonthLength(c.year, c.tm.mon)
      && c.tm.yday == MonthStart(c.year, c.tm.mon) + c.tm.mday - 1
      && YearStart(c.year) + c.tm.yday == March(m.year) + m.doy - 719468
  {
    LeapYear(m.year);
    MonthOfYear(m.year, m.doy);
    MarchStep(m.year);
    YearStartMarch(m.year);
    YearStartMarch(m.year + 1);
  }

  lemma DayOk(t: int)
    ensures t == 86400 * Day(t) + Second(t) && 0 <= Second(t) < 86400
  {
    Euclid(t, 86400);
  }

  lemma WeekDayOk(d: int)
    ensures WeekDay(d) == (d + 4) % 7
  {
    Euclid(d + 4, 7);
  }

  lemma ClockOk(s: int)
    requires 0 <= s < 86400
    ensures 0 <= Rem(s, 60) < 60 && 0 <= Rem(Quo(s, 60), 60) < 60 && 0 <= Quo(s, 3600) < 24
    ensures 3600 * Quo(s, 3600) + 60 * Rem(Quo(s, 60), 60) + Rem(s, 60) == s
  {
    Floor(s, 3600, s / 60 / 60);
  }

  /** What gmtime_r delivers for `t`. */
  predicate Names(c: Civil, t: int) {
    && Proper(c.year, c.tm)
    && Stamp(c.year, c.tm) == t
    && c.tm.wday == (YearStart(c.year) + c.tm.yday + 4) % 7
    && c.tm.year == Int32(c.year - 1900)
  }

  lemma GmtimeParts(t: int) returns (m: MarchDay, d: int, sec: int, min: int, hour: int)
    ensures 0 <= sec < 60 && 0 <= min < 60 && 0 <= hour < 24
    ensures t == 86400 * d + 3600 * hour + 60 * min + sec
    ensures 0 <= m.doy < YearLength(m.year + 1) && March(m.year) + m.doy == d + 719468
    ensures Gmtime(t) == CivilOf(m, sec, min, hour, (d + 4) % 7)
  {
    d := Day(t);
    var s := Second(t);
    DayOk(t);
    ClockOk(s);
    WeekDayOk(d);
    MarchDayOk(d);
    m, sec, min, hour := MarchDayOf(d), Rem(s, 60), Rem(Quo(s, 60), 60), Quo(s, 3600);
  }

  /** Every time, before or after the Epoch, is broken down into a proper date and time of day that name it,
      on the right day of the week. */
  lemma GmtimeCivil(t: int)
    ensures Names(Gmtime(t), t)
  {
    var m, d, sec, min, hour := GmtimeParts(t);
    Assemble(m, d, sec, min, hour);
  }

  /** 24 April 1938, 22:13:20, a Sunday. */
  lemma BeforeEpoch()
    ensures Gmtime(-1_000_000_000) == Civil(1938, Tm(20, 13, 22, 24, 3, 38, 0, 113))
  {
    assert Day(-1_000_000_000) == -11575 && Second(-1_000_000_000) == 80000 && WeekDay(-11575) == 0;
    assert MarchDayOf(-11575) == MarchDay(1938, 54);
  }

  /** The last second of the leap day of 2000. */
  lemma LeapDay()
    ensures Gmtime(951_868_799) == Civil(2000, Tm(59, 59, 23, 29, 1, 100, 2, 59))
  {
    assert Day(951_868_799) == 11016 && Second(951_868_799) == 86399 && WeekDay(11016) == 2;
    assert MarchDayOf(11016) == MarchDay(1999, 365);
  }

  lemma Assemble(m: MarchDay, d: int, sec: int, min: int, hour: int)
    requires 0 <= m.doy < YearLength(m.year + 1) && March(m.year) + m.doy == d + 719468
    requires 0 <= sec < 60 && 0 <= min < 60 && 0 <= hour < 24
    ensures Names(CivilOf(m, sec, min, hour, (d + 4) % 7), 86400 * d + 3600 * hour + 60 * min + sec)
  {
    CivilOk(m, sec, min, hour, (d + 4) % 7);
  }

  // ---------- mktime ----------

  /** date_to_time. */
  method DateToTime(mon: int, day: int, leap: bool) returns (r: int)
    ensures forall y :: Leap(y) == leap ==>
      r == if mon > 11 then 0 else 86400 * (MonthStart(y, if mon < 0 then 0 else mon) + day - 1)
  {
    if mon > 11 { return 0; }
    var days := [31, 28, 31, 30, 31, 30, 31, 31, 30, 31, 30, 31];
    var d, i := day, 0;
    while i < mon
      invariant 0 <= i && (i <= mon || i == 0) && d == day + CommonStart(i)
    {
      d := d + days[i];
      i := i + 1;
    }
    if leap && mon >= 2 { d := d + 1; }
    forall y | Leap(y) == leap ensures MonthStart(y, i) + day == d {
      MonthTable(y, i);
    }
    r := (d - 1) * 24 * 60 * 60;
  }

  /** mktime reads the fields as the calendar does. */
  method Mktime(tm: Tm) returns (r: int)
    ensures r == Stamp(tm.year + 1900, tm)
  {
    var year := YearToTime(tm.year);
    YearToTimeOk(tm.year);
    r := year.0;
    if tm.yday != 0 {
      r := r + tm.yday * 24 * 60 * 60;
    } else {
      var days := DateToTime(tm.mon, tm.mday, year.1);
      r := r + days;
    }
    r := r + tm.hour * 60 * 60;
    r := r + tm.min * 60;
    r := r + tm.sec;
  }

  // ---------- round trips ----------

  lemma {:induction false} YearsApart(y: int, x: int)
    requires y < x
    ensures YearStart(y) + YearLength(y) <= YearStart(x)
    decreases x - y
  {
    YearStartMarch(y);
    YearStartMarch(y + 1);
    MarchStep(y);
    if y + 1 < x { YearsApart(y + 1, x); }
  }

  lemma {:induction false} MonthsApart(y: int, m: nat, n: nat)
    requires m < n
    ensures MonthStart(y, m) + MonthLength(y, m) <= MonthStart(y, n)
  {
    if m + 1 < n { MonthsApart(y, m, n - 1); }
  }

  lemma ProperDay(y: int, tm: Tm)
    requires Proper(y, tm)
    ensures 0 <= tm.yday < YearLength(y)
    ensures Stamp(y, tm) == 86400 * (YearStart(y) + tm.yday) + (3600 * tm.hour + 60 * tm.min + tm.sec)
  {
    MonthTable(y, tm.mon);
    MonthTable(y, 12);
    MonthsApart(y, tm.mon, 12);
  }

  lemma SameDay(d: int, p: int, e: int, q: int)
    requires 86400 * d + p == 86400 * e + q && 0 <= p < 86400 && 0 <= q < 86400
    ensures d == e && p == q
  {
  }

  lemma SameClock(h: int, m: int, s: int, i: int, n: int, t: int)
    requires 0 <= m < 60 && 0 <= s < 60 && 0 <= n < 60 && 0 <= t < 60
    requires 3600 * h + 60 * m + s == 3600 * i + 60 * n + t
    ensures h == i && m == n && s == t
  {
  }

  /** A time is named by one proper date only. */
  lemma Unique(y: int, a: Tm, x: int, b: Tm)
    requires Proper(y, a) && Proper(x, b) && Stamp(y, a) == Stamp(x, b)
    ensures y == x && a == b.(year := a.year, wday := a.wday)
  {
    ProperDay(y, a);
    ProperDay(x, b);
    var p, q := 3600 * a.hour + 60 * a.min + a.sec, 3600 * b.hour + 60 * b.min + b.sec;
    SameDay(YearStart(y) + a.yday, p, YearStart(x) + b.yday, q);
    SameClock(a.hour, a.min, a.sec, b.hour, b.min, b.sec);
    if y < x { YearsApart(y, x); }
    if x < y { YearsApart(x, y); }
    if a.mon < b.mon { MonthsApart(y, a.mon, b.mon); }
    if b.mon < a.mon { MonthsApart(y, b.mon, a.mon); }
  }

  lemma NamesBack(c: Civil, t: int)
    requires Names(c, t)
    ensures Stamp(c.tm.year + 1900, c.tm) == t <==> -0x8000_0000 <= c.year - 1900 < 0x8000_0000
  {
    var x := c.tm.year + 1900;
    ProperDay(c.year, c.tm);
    if x != c.year {
      if c.year < x { YearsApart(c.year, x); } else { YearsApart(x, c.year); }
      if c.tm.yday == 0 && c.tm.mon > 0 { MonthsApart(c.year, 0, c.tm.mon); }
    }
  }

  lemma NamesOnce(c: Civil, y: int, tm: Tm, yday: int)
    requires Proper(y, tm) && tm.year == y - 1900 && -0x8000_0000 <= tm.year < 0x8000_0000
    requires yday == tm.yday || yday == 0
    requires Names(c, Stamp(y, tm.(yday := yday)))
    ensures c.year == y && c.tm == tm.(wday := (YearStart(y) + tm.yday + 4) % 7)
  {
    Unique(y, tm, c.year, c.tm);
  }

  /** The first second of the first year that fits the int it is stored in, and that of the first year
      that does not any more. */
  const FIRST_TIME: int := -67768040609740800
  const END_TIME: int := 67768036191676800

  lemma FirstYear(y: int)
    requires y == 1900 - 0x8000_0000
    ensures 86400 * YearStart(y) == FIRST_TIME
  {
    assert March(y - 1) == -784351602710;
    YearStartMarch(y);
  }

  lemma EndYear(y: int)
    requires y == 1900 + 0x8000_0000
    ensures 86400 * YearStart(y) == END_TIME
  {
    assert March(y - 1) == 784352989899;
    YearStartMarch(y);
  }

  lemma BeforeYear(c: Civil, t: int, y: int)
    requires Names(c, t)
    ensures t < 86400 * YearStart(y) <==> c.year < y
  {
    ProperDay(c.year, c.tm);
    if c.year < y { YearsApart(c.year, y); }
    if y < c.year { YearsApart(y, c.year); }
  }

  lemma YearFits(c: Civil, t: int, first: int, end: int)
    requires Names(c, t) && first == 1900 - 0x8000_0000 && end == 1900 + 0x8000_0000
    ensures -0x8000_0000 <= c.year - 1900 < 0x8000_0000 <==> FIRST_TIME <= t < END_TIME
  {
    FirstYear(first);
    EndYear(end);
    BeforeYear(c, t, first);
    BeforeYear(c, t, end);
  }

  /** mktime undoes gmtime_r exactly on the times of the years that fit the int they are stored in. */
  lemma RoundTrip(t: int)
    ensures var c := Gmtime(t); Stamp(c.tm.year + 1900, c.tm) == t <==> FIRST_TIME <= t < END_TIME
  {
    GmtimeCivil(t);
    NamesBack(Gmtime(t), t);
    YearFits(Gmtime(t), t, 1900 - 0x8000_0000, 1900 + 0x8000_0000);
  }

  /** A time of 64 bits that does not come back. */
  lemma RoundTripFails()
    ensures END_TIME < 0x8000_0000_0000_0000
    ensures var c := Gmtime(END_TIME); Stamp(c.tm.year + 1900, c.tm) != END_TIME
  {
    RoundTrip(END_TIME);
  }

  /** gmtime_r undoes mktime on every proper date, whether or not its day of the year was filled in. */
  lemma RoundTripBack(y: int, tm: Tm, yday: int)
    requires Proper(y, tm) && tm.year == y - 1900 && -0x8000_0000 <= tm.year < 0x8000_0000
    requires yday == tm.yday || yday == 0
    ensures var c := Gmtime(Stamp(y, tm.(yday := yday)));
      c.year == y && c.tm == tm.(wday := (YearStart(y) + tm.yday + 4) % 7)
  {
    var t := Stamp(y, tm.(yday := yday));
    GmtimeCivil(t);
    NamesOnce(Gmtime(t), y, tm, yday);
  }
}
