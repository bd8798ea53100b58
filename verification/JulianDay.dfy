/**
 * Julian day numbers as computeJD, computeYMD and computeHMS compute them (doubles read as exact
 * rationals, casts to int truncating toward zero), against the leap-year rule.
 */
module JulianDay {

  // ----- the calendar -----

  predicate Leap(y: int) {
    y % 4 == 0 && (y % 100 != 0 || y % 400 == 0)
  }

  function YearLength(y: int): int {
    if Leap(y) then 366 else 365
  }

  /** Days from the start of year 0 to the start of year `y`, of the proleptic Gregorian calendar. */
  function YearStart(y: int): int
    decreases if y < 0 then -y else y
  {
    if y == 0 then 0 else if y > 0 then YearStart(y - 1) + YearLength(y - 1) else YearStart(y + 1) - YearLength(y)
  }

  function MonthLength(y: int, m: int): int {
    if m == 2 then (if Leap(y) then 29 else 28) else if m == 4 || m == 6 || m == 9 || m == 11 then 30 else 31
  }

  /** Days from the start of the year to the start of month `m`. */
  function MonthStart(y: int, m: nat): int {
    if m <= 1 then 0 else MonthStart(y, m - 1) + MonthLength(y, m - 1)
  }

  predicate ValidDate(y: int, m: int, d: int) {
    1 <= m <= 12 && 1 <= d <= MonthLength(y, m)
  }

  /** The Julian day at the start of a day: 0000-01-01 is 1721059.5. */
  function Gregorian(y: int, m: int, d: int): real
    requires 1 <= m
  {
    (YearStart(y) + MonthStart(y, m) + d) as real + 1721058.5
  }

  // ----- C arithmetic -----

  /** A cast of a double to int. */
  function Trunc(r: real): int {
    if r >= 0.0 then r.Floor else -((-r).Floor)
  }

  /** Integer division in C. */
  function Div(a: int, b: int): int
    requires b > 0
  {
    if a >= 0 then a / b else -((-a) / b)
  }

  // ----- the formulas of the code -----

  /** The Julian day of a date, as computeJD works it out. */
  function DayNumber(year: int, month: int, d: int): real {
    var y := if month <= 2 then year - 1 else year;
    var m := if month <= 2 then month + 12 else month;
    var a := Div(y, 100);
    var b := 2 - a + Div(a, 4);
    var x1 := Trunc(365.25 * (y + 4716) as real);
    var x2 := Trunc(30.6001 * (m + 1) as real);
    (x1 + x2 + d + b) as real - 1524.5
  }

  /** The date of the day that begins at Julian day `z - 0.5`, as computeYMD works it out. */
  function DateOf(z: int): (int, int, int) {
    var a0 := Trunc((z as real - 1867216.25) / 36524.25);
    var a := z + 1 + a0 - Div(a0, 4);
    var b := a + 1524;
    var c := Trunc((b as real - 122.1) / 365.25);
    var d := Trunc(365.25 * c as real);
    var e := Trunc((b - d) as real / 30.6001);
    var x1 := Trunc(30.6001 * e as real);
    var month := if e < 14 then e - 1 else e - 13;
    (if month > 2 then c - 4716 else c - 4715, month, b - d - x1)
  }

  // ----- computeJD -----

  lemma {:induction false} YearStartIs(y: int)
    ensures YearStart(y) == 365 * y + (y + 3) / 4 - (y + 99) / 100 + (y + 399) / 400
    decreases if y < 0 then -y else y
  {
    if y > 0 {
      YearStartIs(y - 1);
      LeapStep(y - 1);
    } else if y < 0 {
      YearStartIs(y + 1);
      LeapStep(y);
    }
  }

  lemma Step4(y: int)
    ensures (y + 4) / 4 == (y + 3) / 4 + if y % 4 == 0 then 1 else 0
  {
  }

  lemma Step100(y: int)
    ensures (y + 100) / 100 == (y + 99) / 100 + if y % 100 == 0 then 1 else 0
  {
  }

  lemma Step400(y: int)
    ensures (y + 400) / 400 == (y + 399) / 400 + if y % 400 == 0 then 1 else 0
  {
  }

  lemma Multiples(y: int)
    ensures (y % 400 == 0 ==> y % 100 == 0) && (y % 100 == 0 ==> y % 4 == 0)
  {
  }

  lemma LeapStep(y: int)
    ensures (y + 4) / 4 - (y + 100) / 100 + (y + 400) / 400 ==
            (y + 3) / 4 - (y + 99) / 100 + (y + 399) / 400 + if Leap(y) then 1 else 0
  {
    Step4(y);
    Step100(y);
    Step400(y);
    Multiples(y);
  }

  lemma MonthStarts(y: int, m: nat)
    requires 1 <= m <= 12
    ensures var leap := if Leap(y) then 1 else 0;
            MonthStart(y, m) == [0, 31, 59 + leap, 90 + leap, 120 + leap, 151 + leap, 181 + leap,
                                 212 + leap, 243 + leap, 273 + leap, 304 + leap, 334 + leap][m - 1]
  {
  }

  lemma QuarterDays(n: int)
    ensures Trunc(365.25 * n as real) == if n >= 0 then 1461 * n / 4 else -((-1461 * n) / 4)
  {
  }

  /** Days before the month, from 1 March; `m` is 3..14. */
  lemma MonthDays(m: int)
    requires 3 <= m <= 14
    ensures Trunc(30.6001 * (m + 1) as real) == [122, 153, 183, 214, 244, 275, 306, 336, 367, 397, 428, 459][m - 3]
  {
  }

  /** The year counted from March. */
  function MarchYear(year: int, month: int): int {
    if month <= 2 then year - 1 else year
  }

  /** Where truncation toward zero does no harm: a condition on the year counted from March. */
  predicate Exact(y: int) {
    (y >= -4716 || y % 4 == 0) && (y >= 0 || y % 100 != 0 || y % 400 == 0)
  }

  /** Whole days before year `y`, counted from March, in the formula: with floors, and as truncation makes it. */
  function Count(y: int): int {
    1461 * (y + 4716) / 4 + 2 - y / 100 + y / 100 / 4
  }

  function Truncated(y: int): int {
    Trunc(365.25 * (y + 4716) as real) + 2 - Div(y, 100) + Div(Div(y, 100), 4)
  }

  lemma Centuries(y: int)
    ensures y >= 0 ==> Div(y, 100) == y / 100 && Div(Div(y, 100), 4) == y / 100 / 4
    ensures y < 0 ==> Div(Div(y, 100), 4) - Div(y, 100) == y / 100 / 4 - y / 100 + if y % 100 == 0 && y % 400 != 0 then 1 else 0
  {
  }

  lemma QuarterDown(n: int)
    requires n < 0
    ensures -((-1461 * n) / 4) == 1461 * n / 4 + if n % 4 == 0 then 0 else 1
  {
  }

  /** Truncation gives one day too many for certain years before 0, and is right otherwise. */
  lemma TruncatedIs(y: int)
    ensures Truncated(y) == Count(y) + (if y < -4716 && y % 4 != 0 then 1 else 0) + if y < 0 && y % 100 == 0 && y % 400 != 0 then 1 else 0
  {
    hide Div, Trunc;
    QuarterDays(y + 4716);
    Centuries(y);
    if y < -4716 { QuarterDown(y + 4716); }
    assert (y + 4716) % 4 == y % 4;
  }

  lemma CountIs(y: int)
    ensures Count(y) == 365 * y + y / 4 - y / 100 + y / 400 + 1722521
  {
  }

  lemma Shift(y: int)
    ensures (y + 4) / 4 == y / 4 + 1 && (y + 100) / 100 == y / 100 + 1 && (y + 400) / 400 == y / 400 + 1
  {
  }

  /** Days before 1 March of year `y`. */
  lemma MarchFirst(y: int)
    ensures Count(y) == YearStart(y) + 59 + (if Leap(y) then 1 else 0) + 1722461
  {
    hide Count, YearStart;
    YearStartIs(y);
    LeapStep(y);
    CountIs(y);
    Shift(y);
  }

  /** ... counted in the year before, for January and February. */
  lemma NextYear(y: int)
    ensures YearStart(y) == YearStart(y - 1) + 365 + if Leap(y - 1) then 1 else 0
  {
  }

  lemma DayNumberIs(year: int, month: int, d: int)
    requires 1 <= month <= 12
    ensures var y := MarchYear(year, month);
            DayNumber(year, month, d) == Gregorian(year, month, d) + (Truncated(y) - Count(y)) as real
  {
    hide Trunc, Div, YearStart, Count;
    var y, m := MarchYear(year, month), if month <= 2 then month + 12 else month;
    MonthDays(m);
    MonthStarts(year, month);
    MarchFirst(y);
    if month <= 2 { NextYear(year); }
  }

  /** computeJD gives the Gregorian Julian day exactly when truncation does no harm; from year 0 on it always does. */
  lemma DayNumberExact(year: int, month: int, d: int)
    requires 1 <= month <= 12
    ensures DayNumber(year, month, d) == Gregorian(year, month, d) <==> Exact(MarchYear(year, month))
    ensures year >= 0 ==> DayNumber(year, month, d) == Gregorian(year, month, d)
  {
    DayNumberIs(year, month, d);
    TruncatedIs(MarchYear(year, month));
  }

  // ----- computeYMD -----

  /** The day of a date: midnight is at Julian day `DayOf - 0.5`. */
  function DayOf(year: int, month: int, d: int): int
    requires 1 <= month
  {
    YearStart(year) + MonthStart(year, month) + d + 1721059
  }

  lemma Placed(year: int, month: int, d: int) returns (y: int, t: int)
    requires ValidDate(year, month, d)
    ensures y == MarchYear(year, month)
    ensures t == Table(month) + d && DayOf(year, month, d) == Count(y) + t - 1524
    ensures 123 <= t <= 488 && (t == 488 ==> Leap(y + 1)) && (t == 123 ==> month == 3 && d == 1)
  {
    hide YearStart, Count;
    y, t := MarchYear(year, month), Table(month) + d;
    MonthStarts(year, month);
    MarchFirst(y);
    if month <= 2 { NextYear(year); }
  }

  /** Trunc(30.6001 * (m + 1)) for the month counted as 3..14. */
  function Table(month: int): int
    requires 1 <= month <= 12
  {
    [428, 459, 122, 153, 183, 214, 244, 275, 306, 336, 367, 397][month - 1]
  }

  /** The century, from the day. */
  lemma Century(y: int, t: int)
    requires 123 <= t <= 488 && (t == 488 ==> Leap(y + 1))
    ensures var q, z4 := y / 100, 4 * (Count(y) + t - 1524) - 7468865;
            146097 * (q - 4) <= z4 < 146097 * (q - 3)
    ensures 4 * (Count(y) + t - 1524) - 7468865 == 146097 * (y / 100 - 4) <==> t == 123 && y % 400 == 300
  {
    CountIs(y);
    var q, r := y / 100, y % 100;
    assert y == 100 * q + r;
    assert y / 4 == 25 * q + r / 4;
    assert y / 400 == q / 4;
    var c := 36524 * q + q / 4 + 365 * r + r / 4 + 1722521;
    assert Count(y) == c by { hide Count; }
    hide Count;
    if t == 488 { LeapCentury(y); }
    assert y % 400 == 100 * (q % 4) + r;
  }

  lemma LeapCentury(y: int)
    requires Leap(y + 1)
    ensures y % 4 == 3 && (y % 100 == 99 ==> y / 100 % 4 == 3)
  {
    LastBefore(y, 4);
    if y % 100 == 99 {
      LastBefore(y, 100);
      LastOfFour(y, (y + 1) / 400);
    }
  }

  lemma LastBefore(y: int, n: int)
    requires n == 4 || n == 100
    ensures (y + 1) % n == 0 <==> y % n == n - 1
  {
  }

  lemma LastOfFour(y: int, m: int)
    requires y == 400 * m - 1
    ensures y / 100 == 4 * m - 1 && y / 100 % 4 == 3
  {
  }

  /**
   * What computeYMD adds to the day number takes the century rule out again. Before the year 400 the
   * division is of a negative number; where nothing is left over it does not round up.
   */
  lemma Julian(z: int, q: int)
    requires var z4 := 4 * z - 7468865; 146097 * (q - 4) <= z4 < 146097 * (q - 3)
    ensures var a0 := Trunc((z as real - 1867216.25) / 36524.25);
            1 + a0 - Div(a0, 4) == q - 2 - q / 4 - if q < 4 && q % 4 != 0 && 4 * z - 7468865 == 146097 * (q - 4) then 1 else 0
  {
    Quotient(z, q);
  }

  lemma Quotient(z: int, q: int)
    requires var z4 := 4 * z - 7468865; 146097 * (q - 4) <= z4 < 146097 * (q - 3)
    ensures Trunc((z as real - 1867216.25) / 36524.25) == if q >= 4 || 4 * z - 7468865 == 146097 * (q - 4) then q - 4 else q - 3
  {
    var x := (z as real - 1867216.25) / 36524.25;
    assert x * 146097.0 == (4 * z - 7468865) as real;
    assert (q - 4) as real <= x < (q - 3) as real;
  }

  lemma YearOf(y: int, t: int)
    requires y >= -4716 && 123 <= t <= 488 && (t == 488 ==> y % 4 == 3)
    ensures var x1 := 1461 * (y + 4716) / 4;
            Trunc(((x1 + t) as real - 122.1) / 365.25) == y + 4716
  {
  }

  lemma MonthOf(month: int, d: int)
    requires 1 <= month <= 12 && 1 <= d <= (if month == 2 then 29 else if month == 4 || month == 6 || month == 9 || month == 11 then 30 else 31)
    ensures Trunc((Table(month) + d) as real / 30.6001) == (if month <= 2 then month + 13 else month + 1)
  {
  }

  /** The days that computeYMD gets wrong: the division there gives exactly -1, -5, -9, ... */
  predicate Missed(year: int, month: int, d: int) {
    month == 3 && d == 1 && year % 400 == 300 && year < 400
  }

  /** They come back as the day before in the Julian count, which those years do not have. */
  lemma DateBackMissed(year: int, month: int, d: int)
    requires year >= -4716 && Missed(year, month, d)
    ensures DateOf(DayOf(year, month, d)) == (year, 2, 29)
  {
    hide DayOf, Trunc, Div, YearStart, Count;
    var y, t := Placed(year, month, d);
    Century(y, t);
    Julian(DayOf(year, month, d), y / 100);
    EveryFourHundred(y, y / 400);
    BackInMarch(y, t);
    LastOfLeapYear(y);
    YearOf(y - 1, 488);
    MonthOf(2, 29);
    QuarterDays(y + 4715);
    MonthDays(14);
  }

  lemma EveryFourHundred(y: int, q: int)
    requires y == 400 * q + 300
    ensures y / 100 % 4 == 3 && y % 4 == 0 && (y - 1) % 4 == 3
  {
    assert y / 100 == 4 * q + 3;
    assert y / 4 == 100 * q + 75;
  }

  /** The day before 1 March, as the last day of a Julian year. */
  lemma LastOfLeapYear(y: int)
    requires y % 4 == 0
    ensures 1461 * (y + 4716) / 4 + 122 == 1461 * (y + 4715) / 4 + 488
  {
    var q := y / 4;
    assert y == 4 * q;
  }

  lemma DateBackRight(year: int, month: int, d: int)
    requires MarchYear(year, month) >= -4716 && ValidDate(year, month, d) && !Missed(year, month, d)
    ensures DateOf(DayOf(year, month, d)) == (year, month, d)
  {
    hide DayOf, Trunc, Div, YearStart, Count;
    var y, t := Placed(year, month, d);
    var z := DayOf(year, month, d);
    Century(y, t);
    Julian(z, y / 100);
    BackInMarch(y, t);
    if t == 488 { LeapCentury(y); }
    YearOf(y, t);
    MonthOf(month, d);
    QuarterDays(y + 4716);
    MonthDays(if month <= 2 then month + 12 else month);
  }

  lemma BackInMarch(y: int, t: int)
    ensures Count(y) + t + y / 100 - 2 - y / 100 / 4 == 1461 * (y + 4716) / 4 + t
  {
  }

  /** computeYMD gives a date from March -4716 on back if and only if it is not one of those. */
  lemma DateBack(year: int, month: int, d: int)
    requires ValidDate(year, month, d) && MarchYear(year, month) >= -4716
    ensures DateOf(DayOf(year, month, d)) == (year, month, d) <==> !Missed(year, month, d)
  {
    hide DateOf, DayOf;
    if Missed(year, month, d) { DateBackMissed(year, month, d); } else { DateBackRight(year, month, d); }
  }

  // ----- the object -----

  /** The time of day in whole milliseconds. */
  function Millis(h: int, m: int, s: real): real {
    h as real * 3600000.0 + m as real * 60000.0 + s * 1000.0
  }

  function Seconds(ms: int): real {
    ms as real / 1000.0
  }

  /** Seconds hold a whole number of milliseconds. */
  ghost predicate ValidTime(h: int, m: int, s: real) {
    0 <= h < 24 && 0 <= m < 60 && 0.0 <= s < 60.0 && exists ms: int :: s == Seconds(ms)
  }

  /** The time of a Julian day, as computeHMS works it out. */
  function TimeOf(jd: real): (int, int, real) {
    var z := Trunc(jd + 0.5);
    var ms := Trunc((jd + 0.5 - z as real) * 86400000.0 + 0.5);
    var s := 0.001 * ms as real;
    var t := Trunc(s);
    var h := Div(t, 3600);
    var m := Div(t - h * 3600, 60);
    (h, m, s - t as real + (t - h * 3600 - m * 60) as real)
  }

  lemma TruncIs(x: real, n: int)
    requires n >= 0 && n as real <= x < n as real + 1.0
    ensures Trunc(x) == n
  {
  }

  /** The day and the millisecond within it are recovered exactly. */
  lemma Split(day: int, ms: int, jd: real)
    requires day >= 0 && 0 <= ms < 86400000 && jd == day as real - 0.5 + ms as real / 86400000.0
    ensures Trunc(jd + 0.5) == day && Trunc((jd + 0.5 - day as real) * 86400000.0 + 0.5) == ms
  {
  }

  lemma TimeBack(day: int, h: int, m: int, s: real)
    requires day >= 0 && ValidTime(h, m, s)
    ensures var jd := day as real - 0.5 + Millis(h, m, s) / 86400000.0;
            Trunc(jd + 0.5) == day && TimeOf(jd) == (h, m, s)
  {
    var frac: int :| s == Seconds(frac);
    assert s * 1000.0 == frac as real;
    var ms := h * 3600000 + m * 60000 + frac;
    assert Millis(h, m, s) == ms as real;
    var jd := day as real - 0.5 + Millis(h, m, s) / 86400000.0;
    Split(day, ms, jd);
    var whole := frac / 1000;
    assert whole as real <= s < whole as real + 1.0;
    var total := h * 3600 + m * 60 + whole;
    assert 0.001 * ms as real == (h * 3600 + m * 60) as real + s;
    TruncIs(0.001 * ms as real, total);
    Fields(h, m, whole);
  }

  lemma Fields(h: int, m: int, whole: int)
    requires 0 <= h && 0 <= m < 60 && 0 <= whole < 60
    ensures Div(h * 3600 + m * 60 + whole, 3600) == h && Div(m * 60 + whole, 60) == m
  {
  }

  /** What is left of a day, in milliseconds. */
  function DayMillis(jd: real): real {
    (jd + 0.5 - Trunc(jd + 0.5) as real) * 86400000.0
  }

  lemma TruncFloor(x: real)
    requires x >= 0.0
    ensures Trunc(x) >= 0 && Trunc(x) as real <= x < Trunc(x) as real + 1.0
  {
  }

  /** The quotients that split `t` seconds. */
  lemma Sexagesimal(t: int)
    requires 0 <= t
    ensures var h := Div(t, 3600); var m := Div(t - h * 3600, 60);
            0 <= h && 0 <= m < 60 && 0 <= t - h * 3600 - m * 60 < 60 && (t < 86400 ==> h < 24) && (t == 86400 ==> h == 24 && m == 0)
  {
  }

  /**
   * The time fields name the nearest whole millisecond, of two the later one. Within half a
   * millisecond of midnight that is 24:00:00.
   */
  lemma TimeNearest(jd: real) returns (ms: int)
    requires jd >= -0.5
    ensures var (h, m, s) := TimeOf(jd);
            && 0.0 <= DayMillis(jd) < 86400000.0
            && Millis(h, m, s) == ms as real && ms as real - DayMillis(jd) <= 0.5 && DayMillis(jd) - ms as real < 0.5
            && (ms < 86400000 ==> ValidTime(h, m, s)) && (ms >= 86400000 ==> (h, m, s) == (24, 0, 0.0))
  {
    hide Trunc, Div;
    TruncFloor(jd + 0.5);
    var x := DayMillis(jd);
    TruncFloor(x + 0.5);
    ms := Trunc(x + 0.5);
    var sec := 0.001 * ms as real;
    TruncFloor(sec);
    var t := Trunc(sec);
    Sexagesimal(t);
    var h := Div(t, 3600);
    var m := Div(t - h * 3600, 60);
    var s := sec - t as real + (t - h * 3600 - m * 60) as real;
    assert TimeOf(jd) == (h, m, s);
    assert s == Seconds(ms - h * 3600000 - m * 60000);
  }

  function NextDate(year: int, month: int, d: int): (int, int, int) {
    if d < MonthLength(year, month) then (year, month, d + 1) else if month < 12 then (year, month + 1, 1) else (year + 1, 1, 1)
  }

  lemma NextDay(year: int, month: int, d: int)
    requires ValidDate(year, month, d)
    ensures var (y, m, e) := NextDate(year, month, d);
            ValidDate(y, m, e) && DayOf(y, m, e) == DayOf(year, month, d) + 1
  {
    MonthStarts(year, month);
    if d == MonthLength(year, month) && month == 12 {
      MonthStarts(year + 1, 1);
      YearStartIs(year);
      YearStartIs(year + 1);
      LeapStep(year);
    }
  }

  /** Where computeJD is a day late, computeYMD does not make up for it. */
  lemma DayLate(year: int, month: int, d: int)
    requires year >= -4712 && ValidDate(year, month, d) && !Exact(MarchYear(year, month))
    ensures DateOf(DayOf(year, month, d) + 1) != (year, month, d)
  {
    hide DayOf, DateOf;
    NextDay(year, month, d);
    var (y, m, e) := NextDate(year, month, d);
    assert !Missed(y, m, e);
    DateBack(y, m, e);
  }

  /**
   * From a date and a time of Julian day 0 or later to a Julian day and back. The time always comes
   * back; the date does if and only if computeJD counts right and computeYMD does not miss it.
   */
  lemma RoundTrip(year: int, month: int, d: int, h: int, m: int, s: real)
    requires year >= -4712 && ValidDate(year, month, d) && ValidTime(h, m, s)
    ensures var jd := DayNumber(year, month, d) + Millis(h, m, s) / 86400000.0;
            && (jd == Gregorian(year, month, d) + Millis(h, m, s) / 86400000.0 <==> Exact(MarchYear(year, month)))
            && TimeOf(jd) == (h, m, s)
            && (DateOf(Trunc(jd + 0.5)) == (year, month, d) <==> Exact(MarchYear(year, month)) && !Missed(year, month, d))
  {
    hide Trunc, TimeOf, DateOf, DayNumber, YearStart, MonthStart, Millis, DayOf, Gregorian;
    var y := MarchYear(year, month);
    DayNumberIs(year, month, d);
    TruncatedIs(y);
    DayPositive(year, month, d);
    var day := DayOf(year, month, d) + if Exact(y) then 0 else 1;
    TimeBack(day, h, m, s);
    assert DayNumber(year, month, d) == day as real - 0.5;
    if Exact(y) { DateBack(year, month, d); } else { DayLate(year, month, d); }
  }

  lemma DayPositive(year: int, month: int, d: int)
    requires year >= -4712 && ValidDate(year, month, d)
    ensures DayOf(year, month, d) >= 0 && Gregorian(year, month, d) == DayOf(year, month, d) as real - 0.5
  {
    YearStartIs(year);
    MonthStarts(year, month);
  }

  class DateTime {
    var rJD: real
    var Y: int
    var M: int
    var D: int
    var h: int
    var m: int
    var tz: int
    var s: real
    var validYMD: bool
    var validHMS: bool
    var validJD: bool
    var validTZ: bool

    /** Fills in the Julian day from the date, the time and the time zone. */
    method ComputeJD()
      modifies `rJD, `validJD, `validYMD, `validHMS, `validTZ
      ensures validJD
      ensures old(validJD) ==> rJD == old(rJD) && validYMD == old(validYMD) && validHMS == old(validHMS) && validTZ == old(validTZ)
      ensures !old(validJD) ==>
                && !validYMD && validHMS == (old(validHMS) && !old(validTZ)) && validTZ == (old(validTZ) && !old(validHMS))
                && rJD == (if old(validYMD) then DayNumber(Y, M, D) else DayNumber(2000, 1, 1))
                          + (if old(validHMS) then Millis(h, m, s) / 86400000.0 + (if old(validTZ) then tz as real / 1440.0 else 0.0) else 0.0)
    {
      hide Trunc, Div;
      if validJD { return; }
      var y, mon, d := 2000, 1, 1;
      if validYMD { y, mon, d := Y, M, D; }
      ghost var y0, m0 := y, mon;
      if mon <= 2 {
        y := y - 1;
        mon := mon + 12;
      }
      var a := Div(y, 100);
      var b := 2 - a + Div(a, 4);
      var x1 := Trunc(365.25 * (y + 4716) as real);
      var x2 := Trunc(30.6001 * (mon + 1) as real);
      rJD := (x1 + x2 + d + b) as real - 1524.5;
      assert rJD == DayNumber(y0, m0, d);
      validJD := true;
      validYMD := false;
      if validHMS {
        rJD := rJD + (h as real * 3600.0 + m as real * 60.0 + s) / 86400.0;
        if validTZ {
          rJD := rJD + (tz * 60) as real / 86400.0;
          validHMS := false;
          validTZ := false;
        }
      }
    }

    method ComputeYMD()
      modifies `Y, `M, `D, `validYMD
      ensures validYMD
      ensures old(validYMD) ==> Y == old(Y) && M == old(M) && D == old(D)
      ensures !old(validYMD) ==> (Y, M, D) == if validJD then DateOf(Trunc(rJD + 0.5)) else (2000, 1, 1)
    {
      hide Trunc, Div;
      if validYMD { return; }
      if !validJD {
        Y, M, D := 2000, 1, 1;
      } else {
        var z := Trunc(rJD + 0.5);
        var a := Trunc((z as real - 1867216.25) / 36524.25);
        a := z + 1 + a - Div(a, 4);
        var b := a + 1524;
        var c := Trunc((b as real - 122.1) / 365.25);
        var d := Trunc(365.25 * c as real);
        var e := Trunc((b - d) as real / 30.6001);
        var x1 := Trunc(30.6001 * e as real);
        D := b - d - x1;
        M := if e < 14 then e - 1 else e - 13;
        Y := if M > 2 then c - 4716 else c - 4715;
      }
      validYMD := true;
    }

    method ComputeHMS()
      modifies `h, `m, `s, `validHMS
      ensures validHMS
      ensures old(validHMS) ==> h == old(h) && m == old(m) && s == old(s)
      ensures !old(validHMS) ==> (h, m, s) == TimeOf(rJD)
    {
      hide Trunc, Div;
      if validHMS { return; }
      var z := Trunc(rJD + 0.5);
      var t := Trunc((rJD + 0.5 - z as real) * 86400000.0 + 0.5);
      s := 0.001 * t as real;
      t := Trunc(s);
      s := s - t as real;
      h := Div(t, 3600);
      t := t - h * 3600;
      m := Div(t, 60);
      s := s + (t - m * 60) as real;
      validHMS := true;
    }
  }
}
