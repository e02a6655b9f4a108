/** Calendar conversion between a date and its Julian day number. */
module Date {

  /** Integer division and conversion that truncate toward zero. */
  function TDiv(a: int, b: int): int
    requires b > 0
  {
    if a >= 0 then a / b else -((-a) / b)
  }

  function Trunc(x: real): int {
    if x >= 0.0 then x.Floor else -((-x).Floor)
  }

  // ---- the calendar ----

  predicate Leap(y: int) {
    y % 4 == 0 && (y % 100 != 0 || y % 400 == 0)
  }

  function DaysIn(y: int, m: int): int {
    if m == 2 then (if Leap(y) then 29 else 28)
    else if m == 4 || m == 6 || m == 9 || m == 11 then 30 else 31
  }

  /** A date of the proleptic Gregorian calendar. */
  predicate IsDate(y: int, m: int, d: int) {
    1 <= m <= 12 && 1 <= d <= DaysIn(y, m)
  }

  /** What is accepted as a date: any day up to the 31st of any month. */
  predicate Accepted(m: int, d: int) {
    1 <= m <= 12 && 1 <= d <= 31
  }

  /** A date of the Julian calendar, where every fourth year is a leap year. */
  predicate JulianDate(y: int, m: int, d: int) {
    Accepted(m, d) && d <= if m == 2 then (if y % 4 == 0 then 29 else 28) else DaysIn(y, m)
  }

  /** Years and months counted from March. */
  function MarchYear(y: int, m: int): int {
    if m <= 2 then y - 1 else y
  }

  function MarchMonth(m: int): int {
    if m <= 2 then m + 12 else m
  }

  /** Milliseconds in a day. */
  const DAY := 86400000

  // ---- the conversions in whole numbers ----

  /** Days up to the start of a March-based year, and of a month in it. */
  function YearDays(w: int): int {
    TDiv(36525 * w, 100)
  }

  function MonthDays(m: int): int {
    TDiv(306001 * (m + 1), 10000)
  }

  /** Centuries less the leap years among them. */
  function Skipped(a: int): int {
    a - TDiv(a, 4)
  }

  /** The Julian day that begins at noon of the date. */
  function DayNumber(y: int, m: int, d: int): int {
    var my, mm := MarchYear(y, m), MarchMonth(m);
    YearDays(my + 4716) + MonthDays(mm) + d + 2 - Skipped(TDiv(my, 100)) - 1524
  }

  datatype YMD = YMD(y: int, m: int, d: int)

  /** The century, counted from 400, that a day number falls in. */
  function Century(z: int): int {
    TDiv(4 * z - 7468865, 146097)
  }

  function FromDays(b: int): YMD {
    var c := TDiv(20 * b - 2442, 7305);
    var e := TDiv(10000 * (b - YearDays(c)), 306001);
    var d := b - YearDays(c) - TDiv(306001 * e, 10000);
    var m := if e < 14 then e - 1 else e - 13;
    YMD(if m > 2 then c - 4716 else c - 4715, m, d)
  }

  /** A day number as a count of days from which the calendar can be read off. */
  function DayCount(z: int): int {
    z + 1 + Skipped(Century(z)) + 1524
  }

  function Calendar(z: int): YMD {
    FromDays(DayCount(z))
  }

  // ---- decoding a count of days ----

  /** Days into the March-based year. */
  function DayOfYear(m: int, d: int): int {
    MonthDays(MarchMonth(m)) + d
  }

  lemma MonthTable()
    ensures MonthDays(3) == 122 && MonthDays(4) == 153 && MonthDays(5) == 183 && MonthDays(6) == 214 && MonthDays(7) == 244
    ensures MonthDays(8) == 275 && MonthDays(9) == 306 && MonthDays(10) == 336 && MonthDays(11) == 367 && MonthDays(12) == 397
    ensures MonthDays(13) == 428 && MonthDays(14) == 459
  {
  }

  lemma DayOfYearRange(y: int, m: int, d: int)
    requires Accepted(m, d)
    ensures 123 <= DayOfYear(m, d) <= 490 && (DayOfYear(m, d) >= 488 ==> m == 2 && d == DayOfYear(m, d) - 459)
    ensures DayOfYear(m, d) == 123 <==> m == 3 && d == 1
    ensures m == 2 ==> DayOfYear(m, d) == 459 + d
  {
    MonthTable();
    hide MonthDays;
  }

  lemma YearDaysIs(w: int)
    requires w >= 0
    ensures 4 * YearDays(w) == 1461 * w - w % 4
  {
    assert 36525 * w / 100 == 1461 * w / 4;
  }

  /** The year is found again, unless the day is past its end. */
  lemma YearFound(w: int, e: int)
    requires w >= 0 && 123 <= e <= 490
    ensures TDiv(20 * (YearDays(w) + e) - 2442, 7305) == if e <= 487 || (e == 488 && w % 4 == 3) then w else w + 1
  {
    YearDaysIs(w);
    var n := 20 * (YearDays(w) + e) - 2442;
    var rest := 20 * e - 2442 - 5 * (w % 4);
    assert n == 7305 * w + rest;
    if rest < 7305 {
      assert 0 <= rest;
    } else {
      assert n == 7305 * (w + 1) + (rest - 7305) && rest - 7305 < 7305;
    }
  }

  /** The month is found again, unless the day is past its end. */
  lemma MonthFound(y: int, m: int, d: int)
    requires Accepted(m, d) && m != 2
    ensures TDiv(10000 * DayOfYear(m, d), 306001) == MarchMonth(m) + 1 <==> JulianDate(y, m, d)
  {
    MonthTable();
    hide MonthDays;
  }

  lemma FebruaryFound(d: int)
    requires 1 <= d <= 29
    ensures TDiv(10000 * DayOfYear(2, d), 306001) == 15
  {
    MonthTable();
    hide MonthDays;
  }

  /** From the right count the date is recovered, if every fourth year counts as a
      leap year. */
  lemma FromDaysFinds(y: int, m: int, d: int)
    requires Accepted(m, d) && MarchYear(y, m) >= -4716
    ensures FromDays(YearDays(MarchYear(y, m) + 4716) + DayOfYear(m, d)) == YMD(y, m, d) <==> JulianDate(y, m, d)
  {
    hide YearDays, TDiv, MonthDays, DayOfYear;
    var w, e := MarchYear(y, m) + 4716, DayOfYear(m, d);
    DayOfYearRange(y, m, d);
    YearFound(w, e);
    MonthBack(m, d);
    if m != 2 {
      MonthFound(y, m, d);
      YearDaysIs(w);
      DecodedMonth(YearDays(w) + e);
    } else {
      LeapYear(y);
      if d <= 29 { FebruaryFound(d); }
    }
  }

  lemma LeapYear(y: int)
    ensures (y - 1 + 4716) % 4 == 3 <==> y % 4 == 0
  {
  }

  lemma MonthBack(m: int, d: int)
    ensures DayOfYear(m, d) - TDiv(306001 * (MarchMonth(m) + 1), 10000) == d
  {
  }

  /** Whatever is decoded accounts for all the days. */
  lemma FromDaysAccounts(b: int, y: int, m: int, d: int)
    requires b >= 123 && FromDays(b) == YMD(y, m, d)
    ensures b == YearDays(MarchYear(y, m) + 4716) + DayOfYear(m, d)
  {
    var c := TDiv(20 * b - 2442, 7305);
    var e := TDiv(10000 * (b - YearDays(c)), 306001);
    DecodedMonth(b);
    hide YearDays, TDiv;
    assert MonthDays(e - 1) == TDiv(306001 * e, 10000);
  }

  lemma DecodedMonth(b: int)
    requires b >= 123
    ensures var c := TDiv(20 * b - 2442, 7305); 4 <= TDiv(10000 * (b - YearDays(c)), 306001) <= 15
  {
    var c := TDiv(20 * b - 2442, 7305);
    YearDaysIs(c);
    hide YearDays;
    var n := 20 * b - 2442;
    assert n == 7305 * c + n % 7305;
    var x := b - YearDays(c);
    assert 20 * x == 2442 + n % 7305 + 5 * (c % 4);
    assert 123 <= x <= 488;
  }

  // ---- centuries ----

  /** The part of a day number that does not depend on the century. */
  function InCentury(r: int, e: int): int {
    1461 * (r + 4716) / 4 + e + 2 - 1524
  }

  lemma YearDaysSplit(a: int, r: int)
    requires 0 <= r < 100 && 100 * a + r >= -4716
    ensures YearDays(100 * a + r + 4716) == 36525 * a + 1461 * (r + 4716) / 4
  {
    YearDaysIs(100 * a + r + 4716);
    hide YearDays;
  }

  lemma InCenturyRange(r: int, e: int)
    requires 0 <= r < 100 && 123 <= e <= 490
    ensures 6884480 <= 4 * InCentury(r, e) && (4 * InCentury(r, e) == 6884480 <==> r == 0 && e == 123)
    ensures e <= 487 || r < 99 ==> 4 * InCentury(r, e) <= 7030572
    ensures r == 99 && e >= 488 ==> 4 * InCentury(r, e) == 7030576 + 4 * (e - 488)
  {
    var q := 1461 * (r + 4716) / 4;
    assert 4 * q == 1461 * (r + 4716) - r % 4;
  }

  /** Century years before the year 0 that are not leap years. */
  predicate EarlyCentury(my: int) {
    my < 0 && my % 100 == 0 && my % 400 != 0
  }

  /** Truncation counts the centuries of the era before the year 0 from the other
      side, which shows only in these years. */
  lemma SkippedIs(my: int)
    ensures var a := my / 100; Skipped(TDiv(my, 100)) == a - a / 4 - if EarlyCentury(my) then 1 else 0
  {
    var a, r := my / 100, my % 100;
    assert my == 100 * a + r;
    if my >= 0 {
      assert TDiv(my, 100) == a && a >= 0;
    } else {
      assert TDiv(my, 100) == if r == 0 then a else a + 1;
    }
  }

  /** How far into its century, in quarter days, a date is. */
  function IntoCentury(y: int, m: int, d: int): int {
    var my := MarchYear(y, m);
    4 * InCentury(my % 100, DayOfYear(m, d)) - 6884477 - my / 100 % 4 + if EarlyCentury(my) then 4 else 0
  }

  /** A day past the end of the last February of a century. */
  predicate PastCentury(y: int, m: int, d: int) {
    m == 2 && y % 100 == 0 && d > (if y % 400 == 0 then 29 else 28)
  }

  lemma CenturyParts(y: int, m: int, d: int)
    requires Accepted(m, d) && MarchYear(y, m) >= -4716
    ensures var my := MarchYear(y, m);
            var a, rest := my / 100, IntoCentury(y, m, d);
            && 4 * DayNumber(y, m, d) - 7468865 == 146097 * (a - 4) + rest
            && (if PastCentury(y, m, d) then rest == 146099 + 4 * (d - 29) - a % 4 >= 146097 else 0 <= rest < 146097)
            && (rest == 0 <==> a % 4 == 3 && my % 100 == 0 && m == 3 && d == 1 && !EarlyCentury(my))
  {
    var my := MarchYear(y, m);
    var a, r, e := my / 100, my % 100, DayOfYear(m, d);
    DayOfYearRange(y, m, d);
    SkippedIs(my);
    YearDaysSplit(a, r);
    InCenturyRange(r, e);
    CenturyEnd(y, m, d);
    if EarlyCentury(my) { EarlyInCentury(e); }
    hide YearDays, Skipped, TDiv, MonthDays, InCentury, EarlyCentury;
    assert YearDays(my + 4716) == 36525 * a + (InCentury(r, e) - e - 2 + 1524) by { InCenturyIs(r, e); }
    assert DayNumber(y, m, d) == 36525 * a + InCentury(r, e) - Skipped(TDiv(my, 100));
    assert 4 * (a / 4) == a - a % 4;
  }

  lemma CenturyEnd(y: int, m: int, d: int)
    requires Accepted(m, d)
    ensures var my := MarchYear(y, m);
            && (PastCentury(y, m, d) ==> my % 100 == 99 && my / 100 == y / 100 - 1 && (y % 400 == 0 <==> my / 100 % 4 == 3))
            && (m == 2 && d >= 29 && my % 100 == 99 && !PastCentury(y, m, d) ==> d == 29 && my / 100 % 4 == 3)
  {
    if m == 2 {
      var q := y / 100;
      assert y == 100 * q + y % 100;
      assert y % 100 == 0 ==> y - 1 == 100 * (q - 1) + 99;
      assert y % 100 == 0 ==> (y % 400 == 0 <==> q % 4 == 0);
    }
  }

  lemma InCenturyIs(r: int, e: int)
    ensures InCentury(r, e) == 1461 * (r + 4716) / 4 + e + 2 - 1524
  {
  }

  lemma EarlyInCentury(e: int)
    requires 123 <= e <= 490
    ensures 4 * InCentury(0, e) <= 6884480 + 1468
  {
  }

  /** The century of a day number, as the truncating division finds it. */
  lemma CenturyIs(n: int, a: int, rest: int)
    requires n == 146097 * (a - 4) + rest && 0 <= rest < 146097
    ensures TDiv(n, 146097) == if a >= 4 || rest == 0 then a - 4 else a - 3
  {
    if a < 4 {
      assert -n == 146097 * (4 - a) - rest;
      if rest > 0 { assert -n == 146097 * (3 - a) + (146097 - rest); }
    }
  }

  lemma SkippedBack(a: int, whole: bool)
    requires whole ==> a % 4 == 3
    ensures 1 + Skipped(if a >= 4 || whole then a - 4 else a - 3) == a - a / 4 - 2 - if whole && a < 4 then 1 else 0
  {
  }

  /** How far off the count is from which a date is decoded. */
  function Drift(y: int, m: int, d: int): int {
    if EarlyCentury(MarchYear(y, m)) then 1
    else if y == 300 && m == 3 && d == 1 then -1
    else if PastCentury(y, m, d) && y % 400 != 0 && !(d == 29 && y % 400 == 300 && y <= 300) then 1
    else 0
  }

  /** The count of days from which a date is decoded, against the one from which it
      would be recovered. */
  lemma CenturyFound(y: int, m: int, d: int)
    requires Accepted(m, d)
    ensures var w, n := MarchYear(y, m) + 4716, DayCount(DayNumber(y, m, d));
            if w >= 0 then n == YearDays(w) + DayOfYear(m, d) + Drift(y, m, d) else n >= YearDays(w) + 123
  {
    if MarchYear(y, m) < -4716 {
      DayOfYearRange(y, m, d);
      BeforeEpoch(MarchYear(y, m), DayOfYear(m, d));
      hide YearDays, TDiv, Skipped;
    } else {
      hide PastCentury;
      if PastCentury(y, m, d) { PastFound(y, m, d); } else { WithinFound(y, m, d); }
      hide Drift, DayCount;
    }
  }

  lemma WithinFound(y: int, m: int, d: int)
    requires Accepted(m, d) && MarchYear(y, m) >= -4716 && !PastCentury(y, m, d)
    ensures DayCount(DayNumber(y, m, d)) == YearDays(MarchYear(y, m) + 4716) + DayOfYear(m, d) + Drift(y, m, d)
  {
    var my := MarchYear(y, m);
    var a, rest := my / 100, IntoCentury(y, m, d);
    CenturyParts(y, m, d);
    OnlyOnce(y, m, d, my, a);
    SkippedIs(my);
    hide InCentury, Skipped, TDiv, IntoCentury, YearDays, EarlyCentury, MonthDays, PastCentury;
    CenturyIs(4 * DayNumber(y, m, d) - 7468865, a, rest);
    SkippedBack(a, rest == 0);
  }

  lemma PastFound(y: int, m: int, d: int)
    requires Accepted(m, d) && MarchYear(y, m) >= -4716 && PastCentury(y, m, d)
    ensures DayCount(DayNumber(y, m, d)) == YearDays(MarchYear(y, m) + 4716) + DayOfYear(m, d) + Drift(y, m, d)
  {
    hide InCentury, Skipped, TDiv, IntoCentury, YearDays, EarlyCentury, MonthDays, Drift, MarchMonth;
    var my := MarchYear(y, m);
    var a, rest := my / 100, IntoCentury(y, m, d);
    CenturyParts(y, m, d);
    CenturyEnd(y, m, d);
    PastDrift(y, m, d, a);
    CenturyPassed(DayNumber(y, m, d), a, rest);
    SkippedIs(my);
  }

  /** The century of a day number that lies just past the end of century `a`. */
  lemma CenturyPassed(z: int, a: int, rest: int)
    requires 4 * z - 7468865 == 146097 * (a - 4) + rest && 146097 <= rest < 146197 && (rest == 146097 ==> (a + 1) % 4 == 3)
    ensures 1 + Skipped(Century(z)) == a + 1 - (a + 1) / 4 - 2 - if rest == 146097 && a + 1 < 4 then 1 else 0
  {
    hide Skipped, TDiv;
    CenturyIs(4 * z - 7468865, a + 1, rest - 146097);
    SkippedBack(a + 1, rest == 146097);
  }

  lemma PastDrift(y: int, m: int, d: int, a: int)
    requires PastCentury(y, m, d) && a == y / 100 - 1
    ensures var whole := 146099 + 4 * (d - 29) - a % 4 == 146097;
            && !EarlyCentury(MarchYear(y, m)) && (whole ==> (a + 1) % 4 == 3)
            && Drift(y, m, d) == 1 - ((a + 1) / 4 - a / 4) - if whole && a + 1 < 4 then 1 else 0
  {
    var q := y / 100;
    assert y == 100 * q;
    assert y % 400 == 100 * (q % 4);
  }

  /** Before 1 March -4716 the count is too high. */
  lemma BeforeEpoch(my: int, e: int)
    requires my < -4716 && 123 <= e
    ensures var z := YearDays(my + 4716) + e + 2 - Skipped(TDiv(my, 100)) - 1524; DayCount(z) >= YearDays(my + 4716) + 123
  {
    var t, w := TDiv(my, 100), my + 4716;
    var z := YearDays(w) + e + 2 - Skipped(t) - 1524;
    assert 100 * t - 99 <= my && t <= -47;
    assert 4 * YearDays(w) >= 1461 * w;
    assert 4 * Skipped(t) <= 3 * t;
    hide YearDays, Skipped;
    var n := 4 * z - 7468865;
    assert n > 146097 * (t - 5);
    AtLeast(n, t - 4);
    SkippedGrows(t - 4, Century(z));
    assert Skipped(t - 4) + 3 == Skipped(t) by { FourBack(t); }
  }

  lemma AtLeast(n: int, q: int)
    requires n > 146097 * (q - 1) && q <= 0
    ensures TDiv(n, 146097) >= q
  {
  }

  lemma FourBack(t: int)
    requires t <= 0
    ensures Skipped(t - 4) + 3 == Skipped(t)
  {
  }

  lemma SkippedGrows(a: int, b: int)
    requires a <= b
    ensures Skipped(a) <= Skipped(b)
  {
  }

  /** A year before the epoch is read off a count only if that is too low. */
  lemma EarlyYear(b: int, w: int)
    requires w < 0 && TDiv(20 * b - 2442, 7305) == w
    ensures b <= YearDays(w) + 122
  {
    assert 20 * YearDays(w) >= 7305 * w;
  }

  /** The one date that falls on a century boundary before 400. */
  lemma OnlyOnce(y: int, m: int, d: int, my: int, a: int)
    requires my == MarchYear(y, m) && a == my / 100
    ensures a % 4 == 3 && my % 100 == 0 && m == 3 && d == 1 && !EarlyCentury(my) && a < 4 <==> y == 300 && m == 3 && d == 1
  {
    assert my == 100 * a + my % 100;
  }

  /** The dates that the conversion gives back: from 1 March -4716 on, not in a
      March-based century year before the year 0 that is no leap year, and not 1
      March 300. One day that does not exist is given back, too: 29 February of
      300 and of every fourth century year before it. */
  predicate Survives(y: int, m: int, d: int) {
    && MarchYear(y, m) >= -4716
    && if IsDate(y, m, d) then !EarlyCentury(MarchYear(y, m)) && !(y == 300 && m == 3 && d == 1)
       else m == 2 && d == 29 && y % 400 == 300 && y <= 300
  }

  lemma SurvivesIs(y: int, m: int, d: int)
    requires Accepted(m, d)
    ensures Survives(y, m, d) <==> MarchYear(y, m) >= -4716 && JulianDate(y, m, d) && Drift(y, m, d) == 0
  {
  }

  lemma CountGrows(z: int, k: nat)
    ensures DayCount(z + k) >= DayCount(z) + k
  {
    hide Skipped;
    CenturyGrows(z, k);
    SkippedGrows(Century(z), Century(z + k));
  }

  lemma CenturyGrows(z: int, k: nat)
    ensures Century(z) <= Century(z + k)
  {
  }

  /** From its own day number on, a date is decoded from that number alone, and
      from that only if it survives. */
  lemma DecodedOnce(y: int, m: int, d: int, z: int)
    requires Accepted(m, d) && z >= DayNumber(y, m, d)
    ensures Calendar(z) == YMD(y, m, d) <==> z == DayNumber(y, m, d) && Survives(y, m, d)
  {
    if MarchYear(y, m) < -4716 {
      DecodedBefore(y, m, d, z);
    } else {
      hide YearDays, MonthDays, TDiv, FromDays, DayCount, DayNumber, DayOfYear, Survives, EarlyCentury, PastCentury, IsDate, JulianDate;
      var b := YearDays(MarchYear(y, m) + 4716) + DayOfYear(m, d);
      DayOfYearRange(y, m, d);
      YearDaysIs(MarchYear(y, m) + 4716);
      SurvivesIs(y, m, d);
      CountFrom(y, m, d, z);
      DecodedFrom(y, m, d, DayCount(z));
      hide Drift;
    }
  }

  lemma DecodedBefore(y: int, m: int, d: int, z: int)
    requires Accepted(m, d) && z >= DayNumber(y, m, d) && MarchYear(y, m) < -4716
    ensures Calendar(z) != YMD(y, m, d)
  {
    var z0, w := DayNumber(y, m, d), MarchYear(y, m) + 4716;
    CenturyFound(y, m, d);
    CountGrows(z0, z - z0);
    hide DayNumber, DayCount, YearDays;
    if Calendar(z) == YMD(y, m, d) { EarlyYear(DayCount(z), w); }
  }

  /** From its own day number on the count of a date is reached only there. */
  lemma CountFrom(y: int, m: int, d: int, z: int)
    requires Accepted(m, d) && z >= DayNumber(y, m, d) && MarchYear(y, m) >= -4716
    ensures var b := YearDays(MarchYear(y, m) + 4716) + DayOfYear(m, d);
            DayCount(z) >= b - 1 && (DayCount(z) == b <==> z == DayNumber(y, m, d) && Drift(y, m, d) == 0)
  {
    hide YearDays, DayCount, DayNumber, DayOfYear, Drift, Skipped, TDiv, Century, MonthDays;
    var z0 := DayNumber(y, m, d);
    CenturyFound(y, m, d);
    CountGrows(z0, z - z0);
    DriftRange(y, m, d);
    assert z0 + (z - z0) == z;
    if z != z0 && Drift(y, m, d) == -1 {
      NextDay(z0, z - z0 - 1);
      assert z0 + 1 + (z - z0 - 1) == z;
    }
  }

  lemma DriftRange(y: int, m: int, d: int)
    ensures -1 <= Drift(y, m, d) <= 1 && (Drift(y, m, d) == -1 ==> y == 300 && m == 3 && d == 1)
  {
  }

  /** After the epoch a date is decoded from one count alone. */
  lemma DecodedFrom(y: int, m: int, d: int, b: int)
    requires Accepted(m, d) && MarchYear(y, m) >= -4716 && b >= 123
    ensures FromDays(b) == YMD(y, m, d) <==> b == YearDays(MarchYear(y, m) + 4716) + DayOfYear(m, d) && JulianDate(y, m, d)
  {
    FromDaysFinds(y, m, d);
    hide FromDays, YearDays, DayOfYear, JulianDate;
    if FromDays(b) == YMD(y, m, d) { FromDaysAccounts(b, y, m, d); }
  }

  /** The day after 1 March 300 is counted right. */
  lemma NextDay(z: int, k: nat)
    requires z == DayNumber(300, 3, 1)
    ensures DayCount(z + 1 + k) >= YearDays(5016) + DayOfYear(3, 1) + 1
  {
    CenturyFound(300, 3, 2);
    CountGrows(z + 1, k);
  }

  /** For every day that is accepted: it survives the conversion to a day number
      and back if and only if it is one of the days described. */
  lemma RoundTrip(y: int, m: int, d: int)
    requires Accepted(m, d)
    ensures Calendar(DayNumber(y, m, d)) == YMD(y, m, d) <==> Survives(y, m, d)
  {
    DecodedOnce(y, m, d, DayNumber(y, m, d));
  }

  /** One day of each kind that is not given back, the day that should not be, and
      noon of a day before the Julian epoch. */
  lemma NotGivenBack()
    ensures Calendar(DayNumber(-4800, 6, 15)) == YMD(-4798, -5, -15)
    ensures Calendar(DayNumber(-100, 6, 15)) == YMD(-100, 6, 16)
    ensures Calendar(DayNumber(300, 3, 1)) == YMD(300, 2, 29) == Calendar(DayNumber(300, 2, 29))
    ensures DayNumber(-4713, 11, 23) == -1 && Calendar(TDiv(DAY * -1 + 43200000, DAY)) == YMD(-4713, 11, 24)
  {
    DayNumbers();
    hide DayNumber, FromDays, Century;
    assert Century(-31938) == -51 && FromDays(-30452) == YMD(-4798, -5, -15) by { Decoded1(); }
    assert Century(1684702) == -4 && FromDays(1686224) == YMD(-100, 6, 16) by { Decoded2(); }
    assert Century(1830692) == -1 && FromDays(1832216) == YMD(300, 2, 29) by { Decoded3(); }
    assert Century(0) == -51 && FromDays(1486) == YMD(-4713, 11, 24) by { Decoded4(); }
  }

  lemma DayNumbers()
    ensures DayNumber(-4800, 6, 15) == -31938 && DayNumber(-100, 6, 15) == 1684702
    ensures DayNumber(300, 3, 1) == DayNumber(300, 2, 29) == 1830692 && DayNumber(-4713, 11, 23) == -1
  {
  }

  lemma Decoded1()
    ensures Century(-31938) == -51 && FromDays(-30452) == YMD(-4798, -5, -15)
  {
    assert TDiv(20 * -30452 - 2442, 7305) == -83 && YearDays(-83) == -30315;
  }

  lemma Decoded2()
    ensures Century(1684702) == -4 && FromDays(1686224) == YMD(-100, 6, 16)
  {
    assert TDiv(20 * 1686224 - 2442, 7305) == 4616 && YearDays(4616) == 1685994;
  }

  lemma Decoded3()
    ensures Century(1830692) == -1 && FromDays(1832216) == YMD(300, 2, 29)
  {
    assert TDiv(20 * 1832216 - 2442, 7305) == 5015 && YearDays(5015) == 1831728;
  }

  lemma Decoded4()
    ensures Century(0) == -51 && FromDays(1486) == YMD(-4713, 11, 24)
  {
    assert TDiv(20 * 1486 - 2442, 7305) == 3 && YearDays(3) == 1095;
  }

  // ---- successive days ----

  function Tomorrow(y: int, m: int, d: int): YMD {
    if d < DaysIn(y, m) then YMD(y, m, d + 1) else if m < 12 then YMD(y, m + 1, 1) else YMD(y + 1, 1, 1)
  }

  function Early(my: int): int {
    if EarlyCentury(my) then 1 else 0
  }

  /** From 1 March -4716 on the day numbers of successive dates differ by one, but
      where a March-based century year before the year 0 that is no leap year begins
      or ends. */
  lemma NextDayNumber(y: int, m: int, d: int)
    requires IsDate(y, m, d) && MarchYear(y, m) >= -4716
    ensures var t := Tomorrow(y, m, d);
            && IsDate(t.y, t.m, t.d)
            && DayNumber(t.y, t.m, t.d) == DayNumber(y, m, d) + 1 + Early(MarchYear(t.y, t.m)) - Early(MarchYear(y, m))
  {
    MonthTable();
    if m == 2 && d == DaysIn(y, m) {
      MarchFirst(y, d);
    } else {
      hide MonthDays, YearDays, Skipped, TDiv, EarlyCentury;
    }
  }

  lemma MarchFirst(y: int, d: int)
    requires d == DaysIn(y, 2) && y - 1 >= -4716
    ensures DayNumber(y, 3, 1) == DayNumber(y, 2, d) + 1 + Early(y) - Early(y - 1)
  {
    hide YearDays, Skipped, TDiv, MonthDays, EarlyCentury;
    var w := y - 1 + 4716;
    SkippedIs(y);
    SkippedIs(y - 1);
    MonthTable();
    CenturyTurn(y);
    YearGrows(y);
    assert DayNumber(y, 3, 1) == YearDays(w + 1) + 122 + 1 + 2 - Skipped(TDiv(y, 100)) - 1524;
    assert DayNumber(y, 2, d) == YearDays(w) + 459 + d + 2 - Skipped(TDiv(y - 1, 100)) - 1524;
  }

  lemma YearGrows(y: int)
    requires y - 1 >= -4716
    ensures YearDays(y + 4716) - YearDays(y - 1 + 4716) == if y % 4 == 0 then 366 else 365
  {
    YearDaysIs(y + 4716);
    YearDaysIs(y - 1 + 4716);
    hide YearDays;
  }

  /** Days are skipped at the turn of a century that does not end in a leap year. */
  lemma CenturyTurn(y: int)
    ensures var a, b := (y - 1) / 100, y / 100; (b - b / 4) - (a - a / 4) == if y % 100 == 0 && y % 400 != 0 then 1 else 0
    ensures (y - 1 + 4716) % 4 == 3 <==> y % 4 == 0
  {
    var b := y / 100;
    assert y == 100 * b + y % 100;
    if y % 100 == 0 {
      assert (y - 1) / 100 == b - 1;
      assert y % 400 == 0 <==> b % 4 == 0;
    } else {
      assert (y - 1) / 100 == b;
    }
  }

  /** Some Julian days that are known: the epochs J2000, of Unix time and of the
      modified Julian day. */
  lemma KnownDays()
    ensures DayNumber(2000, 1, 1) == 2451545 && DayNumber(1970, 1, 1) == 2440588 && DayNumber(1858, 11, 17) == 2400001
    ensures DayNumber(-4713, 11, 24) == 0
  {
  }

  // ---- the conversions as they are carried out ----

  lemma TruncInt(n: int)
    ensures Trunc(n as real) == n
  {
  }

  lemma TruncRatio(n: int, b: int)
    requires b > 0
    ensures Trunc(n as real / b as real) == TDiv(n, b)
  {
    if n >= 0 {
      RatioFloor(n, b);
    } else {
      RatioFloor(-n, b);
      assert (-n) as real / b as real == -(n as real / b as real);
    }
  }

  lemma RatioFloor(n: int, b: int)
    requires b > 0 && n >= 0
    ensures n as real / b as real >= 0.0 && (n as real / b as real).Floor == n / b
  {
    var q, r := n / b, n % b;
    assert n == b * q + r;
    var x := n as real / b as real;
    assert x == q as real + r as real / b as real by {
      assert (q * b) as real == q as real * b as real;
      assert n as real == b as real * q as real + r as real;
    }
    assert 0.0 <= r as real / b as real < 1.0;
  }

  class DateTime {
    /** Milliseconds since the Julian epoch. */
    var iJD: int
    var Y: int
    var M: int
    var D: int
    var h: int
    var m: int
    var s: real
    var tz: int
    var validJD: bool
    var validYMD: bool
    var validHMS: bool
    var validTZ: bool

    constructor ()
      ensures !validJD && !validYMD && !validHMS && !validTZ
    {
      iJD, Y, M, D, h, m, s, tz := 0, 0, 0, 0, 0, 0, 0.0, 0;
      validJD, validYMD, validHMS, validTZ := false, false, false, false;
    }

    /** Milliseconds into the day, less the offset from UTC. */
    function TimeOfDay(): int
      reads this
    {
      if !validHMS then 0
      else h * 3600000 + m * 60000 + Trunc(s * 1000.0) - if validTZ then tz * 60000 else 0
    }

    /** The Julian day from year, month and day; 2000-01-01 if these are unknown. */
    method ComputeJD()
      modifies this
      ensures validJD && Y == old(Y) && M == old(M) && D == old(D)
      ensures old(validJD) ==> iJD == old(iJD) && validYMD == old(validYMD)
      ensures !old(validJD) ==>
                iJD == DAY * (if old(validYMD) then DayNumber(Y, M, D) else DayNumber(2000, 1, 1)) - 43200000 + old(TimeOfDay())
      ensures !old(validJD) ==> validYMD == (old(validYMD) && !(old(validHMS) && old(validTZ)))
    {
      hide TDiv, Trunc;
      if validJD { return; }
      var y, mo, d := 2000, 1, 1;
      if validYMD { y, mo, d := Y, M, D; }
      ghost var z := DayNumber(y, mo, d);
      if mo <= 2 { y, mo := y - 1, mo + 12; }
      var a := TDiv(y, 100);
      var b := 2 - a + TDiv(a, 4);
      var x1 := TDiv(36525 * (y + 4716), 100);
      var x2 := TDiv(306001 * (mo + 1), 10000);
      assert x1 + x2 + d + b - 1524 == z;
      Noon(z);
      iJD := Trunc(((x1 + x2 + d + b) as real - 1524.5) * 86400000.0);
      validJD := true;
      if validHMS {
        iJD := iJD + h * 3600000 + m * 60000 + Trunc(s * 1000.0);
        if validTZ {
          iJD := iJD - tz * 60000;
          validYMD, validHMS, validTZ := false, false, false;
        }
      }
    }

    /** Year, month and day from the Julian day. */
    method ComputeYMD()
      modifies `Y, `M, `D, `validYMD
      ensures validYMD && (old(validYMD) ==> Y == old(Y) && M == old(M) && D == old(D))
      ensures !old(validYMD) ==> YMD(Y, M, D) == if validJD then Calendar(TDiv(iJD + 43200000, DAY)) else YMD(2000, 1, 1)
    {
      hide TDiv, Trunc;
      if validYMD { return; }
      if !validJD {
        Y, M, D := 2000, 1, 1;
      } else {
        var z := TDiv(iJD + 43200000, 86400000);
        CenturyRatio(z);
        var a := Trunc((z as real - 1867216.25) / 36524.25);
        a := z + 1 + a - TDiv(a, 4);
        var b := a + 1524;
        YearRatio(b);
        var c := Trunc((b as real - 122.1) / 365.25);
        var d := TDiv(36525 * c, 100);
        MonthRatio(b - d);
        var e := Trunc((b - d) as real / 30.6001);
        DayRatio(e);
        var x1 := Trunc(30.6001 * e as real);
        D := b - d - x1;
        M := if e < 14 then e - 1 else e - 13;
        Y := if M > 2 then c - 4716 else c - 4715;
      }
      validYMD := true;
    }
  }

  lemma Noon(z: int)
    ensures Trunc(((z + 1524) as real - 1524.5) * 86400000.0) == DAY * z - 43200000
  {
    assert ((z + 1524) as real - 1524.5) * 86400000.0 == (DAY * z - 43200000) as real;
    TruncInt(DAY * z - 43200000);
  }

  lemma CenturyRatio(z: int)
    ensures Trunc((z as real - 1867216.25) / 36524.25) == Century(z)
  {
    assert (z as real - 1867216.25) / 36524.25 == (4 * z - 7468865) as real / 146097.0;
    TruncRatio(4 * z - 7468865, 146097);
  }

  lemma YearRatio(b: int)
    ensures Trunc((b as real - 122.1) / 365.25) == TDiv(20 * b - 2442, 7305)
  {
    assert (b as real - 122.1) / 365.25 == (20 * b - 2442) as real / 7305.0;
    TruncRatio(20 * b - 2442, 7305);
  }

  lemma MonthRatio(x: int)
    ensures Trunc(x as real / 30.6001) == TDiv(10000 * x, 306001)
  {
    assert x as real / 30.6001 == (10000 * x) as real / 306001.0;
    TruncRatio(10000 * x, 306001);
  }

  lemma DayRatio(e: int)
    ensures Trunc(30.6001 * e as real) == TDiv(306001 * e, 10000)
  {
    assert 30.6001 * e as real == (306001 * e) as real / 10000.0;
    TruncRatio(306001 * e, 10000);
  }

  /** Milliseconds since midnight. */
  function Clock(h: nat, mi: nat, s: real): int {
    h * 3600000 + mi * 60000 + Trunc(s * 1000.0)
  }

  /** Converts a date and a time of day, as they are accepted, to the Julian day and
      back. */
  method ThereAndBack(y: int, mo: int, d: int, h: nat, mi: nat, s: real) returns (r: YMD)
    requires Accepted(mo, d) && h <= 24 && mi < 60 && 0.0 <= s < 60.0
    ensures r == YMD(y, mo, d) <==> Survives(y, mo, d) && h < 24 && (DayNumber(y, mo, d) >= 0 || Clock(h, mi, s) == 0)
  {
    hide DayNumber, IsDate, Survives, Calendar, TDiv;
    var dt := new DateTime();
    dt.Y, dt.M, dt.D, dt.validYMD := y, mo, d, true;
    dt.h, dt.m, dt.s, dt.validHMS := h, mi, s, true;
    dt.ComputeJD();
    dt.validYMD := false;
    dt.ComputeYMD();
    r := YMD(dt.Y, dt.M, dt.D);
    ghost var z, t := DayNumber(y, mo, d), Clock(h, mi, s);
    WithinDay(z, t);
    DecodedOnce(y, mo, d, TDiv(DAY * z + t, DAY));
  }

  /** Which day a time of day falls in: rounding towards zero, a day before the
      Julian epoch keeps only its first moment. */
  lemma WithinDay(z: int, t: int)
    requires 0 <= t < 2 * DAY
    ensures var q := TDiv(DAY * z + t, DAY); q >= z && (q == z <==> t < DAY && (z >= 0 || t == 0))
  {
    if DAY * z + t < 0 {
      var n := -(DAY * z + t);
      assert n == DAY * -z - t;
    }
  }

  /** The Julian day of a local time, in milliseconds, is that of the same time in
      UTC less the offset in minutes; the date is then no longer known. */
  method LocalTime(y: int, mo: int, d: int, h: nat, mi: nat, s: real, tz: int) returns (local: int, utc: int, validYMD: bool)
    requires h <= 24 && mi < 60 && 0.0 <= s < 60.0
    ensures local == utc - tz * 60000 && !validYMD
    ensures utc == 86400000 * DayNumber(y, mo, d) - 43200000 + h * 3600000 + mi * 60000 + (s * 1000.0).Floor
  {
    hide DayNumber;
    var dt := new DateTime();
    dt.Y, dt.M, dt.D, dt.validYMD := y, mo, d, true;
    dt.h, dt.m, dt.s, dt.validHMS := h, mi, s, true;
    dt.ComputeJD();
    utc := dt.iJD;
    dt := new DateTime();
    dt.Y, dt.M, dt.D, dt.validYMD := y, mo, d, true;
    dt.h, dt.m, dt.s, dt.validHMS := h, mi, s, true;
    dt.tz, dt.validTZ := tz, true;
    dt.ComputeJD();
    local, validYMD := dt.iJD, dt.validYMD;
  }
}
