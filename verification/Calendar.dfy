// Days, years and times of the proleptic Gregorian calendar, in milliseconds
// from the beginning of 1970.
module Calendar {
  import opened Wrappers
  import opened Arithmetic

  const MS_PER_DAY := 86400000
  const MAX_TIME := 8640000000000000

  // Division and remainder as the machine does them, towards zero.
  function Div(a: int, b: int): int
    requires b > 0
  {
    if a >= 0 then a / b else -((-a) / b)
  }

  function Rem(a: int, b: int): int
    requires b > 0
  {
    if a >= 0 then a % b else -((-a) % b)
  }

  function Mod(a: int, b: int): int
    requires b > 0
  {
    Rem(a, b) + if Rem(a, b) < 0 then b else 0
  }

  function FloorDiv(a: int, b: int): int
    requires b > 0
  {
    Div(a - (Rem(a, b) + if Rem(a, b) < 0 then b else 0), b)
  }

  // They come out as the remainder that is not negative, and its quotient.
  lemma Floors(a: int, b: int)
    requires b > 0
    ensures Mod(a, b) == a % b && FloorDiv(a, b) == a / b
    ensures Rem(a, b) == 0 <==> a % b == 0
  {
    if a < 0 {
      var q, r := (-a) / b, (-a) % b;
      assert -a == q * b + r;
      if r == 0 {
        assert a == (0 - q) * b;
        DivModOf(a, 0 - q, b, 0);
      } else {
        assert a == (0 - q - 1) * b + (b - r);
        DivModOf(a, 0 - q - 1, b, b - r);
      }
    }
    var m := a / b;
    assert a == m * b + a % b;
    assert a - a % b == m * b;
    if a - a % b >= 0 {
      DivModOf(m * b, m, b, 0);
    } else {
      assert -(m * b) == (0 - m) * b;
      DivModOf(-(m * b), 0 - m, b, 0);
    }
  }

  // ----- years -----

  lemma Multiples(y: int)
    ensures (y % 100 == 0 ==> y % 4 == 0) && (y % 400 == 0 ==> y % 100 == 0)
  {
  }

  function DaysInYear(y: int): (n: int)
    ensures 365 <= n <= 366
  {
    hide Rem;
    Floors(y, 4);
    Floors(y, 100);
    Floors(y, 400);
    Multiples(y);
    365 + (if Rem(y, 4) == 0 then 1 else 0) - (if Rem(y, 100) == 0 then 1 else 0) + (if Rem(y, 400) == 0 then 1 else 0)
  }

  function DaysFromYear(y: int): int {
    365 * (y - 1970) + FloorDiv(y - 1969, 4) - FloorDiv(y - 1901, 100) + FloorDiv(y - 1601, 400)
  }

  lemma LeapCases(y: int)
    ensures DaysInYear(y) == 365 + (if y % 4 == 0 then 1 else 0) - (if y % 100 == 0 then 1 else 0)
            + (if y % 400 == 0 then 1 else 0)
  {
    hide Rem;
    Floors(y, 4);
    Floors(y, 100);
    Floors(y, 400);
  }

  lemma Steps(a: int)
    ensures FloorDiv(a + 1, 4) == FloorDiv(a, 4) + if (a + 1) % 4 == 0 then 1 else 0
    ensures FloorDiv(a + 1, 100) == FloorDiv(a, 100) + if (a + 1) % 100 == 0 then 1 else 0
    ensures FloorDiv(a + 1, 400) == FloorDiv(a, 400) + if (a + 1) % 400 == 0 then 1 else 0
  {
    forall d | d == a || d == a + 1
      ensures FloorDiv(d, 4) == d / 4 && FloorDiv(d, 100) == d / 100 && FloorDiv(d, 400) == d / 400
    {
      Floors(d, 4);
      Floors(d, 100);
      Floors(d, 400);
    }
    hide FloorDiv;
  }

  lemma NextYear(y: int)
    ensures DaysFromYear(y + 1) == DaysFromYear(y) + DaysInYear(y)
  {
    hide FloorDiv, DaysInYear;
    LeapCases(y);
    Steps(y - 1969);
    Steps(y - 1901);
    Steps(y - 1601);
    Shifted(y);
  }

  lemma Shifted(y: int)
    ensures (y - 1968) % 4 == 0 <==> y % 4 == 0
    ensures (y - 1900) % 100 == 0 <==> y % 100 == 0
    ensures (y - 1600) % 400 == 0 <==> y % 400 == 0
  {
  }

  // The days from the beginning of year a to that of year b.
  function DaysBetween(a: int, b: int): int
    requires a <= b
    decreases b - a
  {
    if a == b then 0 else DaysInYear(a) + DaysBetween(a + 1, b)
  }

  lemma {:induction false} YearsAddUp(a: int, b: int)
    requires a <= b
    ensures DaysFromYear(b) == DaysFromYear(a) + DaysBetween(a, b) && DaysBetween(a, b) >= 365 * (b - a)
    ensures DaysFromYear(1970) == 0
    decreases b - a
  {
    hide DaysInYear;
    if a < b {
      YearsAddUp(a + 1, b);
      NextYear(a);
    }
  }

  predicate InYear(d: int, y: int) { 0 <= d - DaysFromYear(y) < DaysInYear(y) }

  lemma OneYear(d: int, y: int, z: int)
    requires InYear(d, y) && InYear(d, z)
    ensures y == z
  {
    hide DaysFromYear, DaysInYear;
    var lo, hi := if y < z then y else z, if y < z then z else y;
    NextYear(lo);
    if lo < hi {
      YearsAddUp(lo + 1, hi);
    }
  }

  // The one year that day d is in, and the day of that year.
  method YearFromDays(d: int) returns (y: int, day: int)
    ensures InYear(d, y) && day == d - DaysFromYear(y) && forall z | InYear(d, z) :: z == y
  {
    hide DaysFromYear, DaysInYear;
    y := FloorDiv(d * 10000, 3652425) + 1970;
    ghost var left := d - DaysFromYear(y);
    while true
      invariant left == d - DaysFromYear(y)
      decreases left < 0, if left < 0 then -left else left
    {
      day := d - DaysFromYear(y);
      if day < 0 {
        NextYear(y - 1);
        y := y - 1;
      } else {
        var nd := DaysInYear(y);
        if day < nd {
          break;
        }
        NextYear(y);
        y := y + 1;
      }
      left := d - DaysFromYear(y);
    }
    forall z | InYear(d, z) ensures z == y {
      OneYear(d, y, z);
    }
  }

  // ----- months -----

  const MONTH_DAYS: seq<int> := [31, 28, 31, 30, 31, 30, 31, 31, 30, 31, 30, 31]

  function MonthDays(y: int, m: nat): (n: int)
    requires m < 12
    ensures 28 <= n <= 31
  {
    MONTH_DAYS[m] + if m == 1 then DaysInYear(y) - 365 else 0
  }

  // Thirty days have April, June, September and November, and February has a day
  // more in every fourth year but not in every hundredth, unless in every four
  // hundredth.
  lemma MonthLengths(y: int, m: nat)
    requires m < 12
    ensures MonthDays(y, m) == if m in {3, 5, 8, 10} then 30
                               else if m != 1 then 31
                               else if y % 4 == 0 && (y % 100 != 0 || y % 400 == 0) then 29 else 28
  {
    LeapCases(y);
    Multiples(y);
  }

  function MonthStart(y: int, m: nat): int
    requires m <= 12
  {
    if m == 0 then 0 else MonthStart(y, m - 1) + MonthDays(y, m - 1)
  }

  lemma {:induction false} MonthOrder(y: int, a: nat, b: nat)
    requires a <= b <= 12
    ensures MonthStart(y, a) + 28 * (b - a) <= MonthStart(y, b)
    decreases b
  {
    if a < b {
      MonthOrder(y, a, b - 1);
    }
  }

  lemma WholeYear(y: int)
    ensures MonthStart(y, 12) == DaysInYear(y) && MonthStart(y, 11) + 31 == DaysInYear(y)
    ensures MonthStart(y, 8) + 122 == DaysInYear(y)
  {
    hide DaysInYear;
    var leap := DaysInYear(y) - 365;
    assert MonthStart(y, 1) == 31;
    assert MonthStart(y, 2) == 59 + leap;
    assert MonthStart(y, 3) == 90 + leap;
    assert MonthStart(y, 4) == 120 + leap;
    assert MonthStart(y, 5) == 151 + leap;
    assert MonthStart(y, 6) == 181 + leap;
    assert MonthStart(y, 7) == 212 + leap;
    assert MonthStart(y, 8) == 243 + leap;
    assert MonthStart(y, 9) == 273 + leap;
    assert MonthStart(y, 10) == 304 + leap;
    assert MonthStart(y, 11) == 334 + leap;
    assert MonthStart(y, 12) == 365 + leap;
  }

  // ----- fields -----

  datatype Fields = Fields(wday: int, yr: int, mon: int, day: int, hr: int, min: int, sec: int, msec: int)

  // The day for a year, a month counted from its January, and a day of the month.
  function DayOf(yr: int, month: int, date: int): int {
    var y, m: nat := yr + month / 12, month % 12;
    DaysFromYear(y) + MonthStart(y, m) + date - 1
  }

  method MakeDay(yr: int, month: int, date: int) returns (day: int)
    ensures day == DayOf(yr, month, date)
  {
    hide DaysInYear, DaysFromYear;
    Floors(month, 12);
    var mn := Mod(month, 12);
    var ym := yr + Div(month - mn, 12);
    Twelfth(month);
    var days := DaysFromYear(ym);
    var i := 0;
    while i < mn
      invariant 0 <= i <= mn && days == DaysFromYear(ym) + MonthStart(ym, i)
    {
      var md := MONTH_DAYS[i];
      if i == 1 {
        md := md + (DaysInYear(ym) - 365);
      }
      days := days + md;
      i := i + 1;
    }
    day := days + date - 1;
  }

  lemma Twelfth(month: int)
    ensures Div(month - month % 12, 12) == month / 12
  {
  }

  function TimeOf(f: Fields): int {
    ((f.hr * 60 + f.min) * 60 + f.sec) * 1000 + f.msec + DayOf(f.yr, f.mon, f.day) * MS_PER_DAY
  }

  function TimeClip(t: int): Option<int> { if -MAX_TIME <= t <= MAX_TIME then Some(t) else None }

  // The beginning is a Thursday, and the last time is a Saturday in September.
  lemma Limits()
    ensures var first, last := Fields(4, 1970, 0, 1, 0, 0, 0, 0), Fields(6, 275760, 8, 13, 0, 0, 0, 0);
            Normal(first) && TimeOf(first) == 0 && Normal(last) && TimeOf(last) == MAX_TIME
  {
    hide DaysFromYear, DaysInYear, MonthStart, MonthDays;
    MonthLengths(1970, 0);
    MonthLengths(275760, 8);
    assert DayOf(1970, 0, 1) == 0 by {
      YearsAddUp(1970, 1970);
      NoMonths(1970);
    }
    LastDay();
  }

  lemma NoMonths(y: int)
    ensures MonthStart(y, 0) == 0
  {
  }

  lemma LastDay()
    ensures DayOf(275760, 8, 13) == 100000000
  {
    hide MonthStart;
    WholeYear(275760);
    LeapCases(275760);
    YearsBefore(275760);
  }

  lemma YearsBefore(y: int)
    ensures DaysFromYear(y) == 365 * (y - 1970) + (y - 1969) / 4 - (y - 1901) / 100 + (y - 1601) / 400
  {
    hide FloorDiv;
    Floors(y - 1969, 4);
    Floors(y - 1901, 100);
    Floors(y - 1601, 400);
  }

  method MakeDate(f: Fields) returns (t: Option<int>)
    ensures t == TimeClip(TimeOf(f))
  {
    var days := MakeDay(f.yr, f.mon, f.day);
    var time := ((f.hr * 60 + f.min) * 60 + f.sec) * 1000 + f.msec;
    time := time + days * MS_PER_DAY;
    t := TimeClip(time);
  }

  predicate Normal(f: Fields) {
    && 0 <= f.mon < 12 && 1 <= f.day <= MonthDays(f.yr, f.mon)
    && 0 <= f.hr < 24 && 0 <= f.min < 60 && 0 <= f.sec < 60 && 0 <= f.msec < 1000
    && f.wday == (DayOf(f.yr, f.mon, f.day) + 4) % 7
  }

  lemma NormalDay(yr: int, mon: nat, day: int)
    requires mon < 12 && 1 <= day <= MonthDays(yr, mon)
    ensures var d := DayOf(yr, mon, day);
            InYear(d, yr) && MonthStart(yr, mon) <= d - DaysFromYear(yr) < MonthStart(yr, mon + 1)
  {
    hide DaysInYear, DaysFromYear;
    assert mon as int / 12 == 0 && mon as int % 12 == mon;
    MonthOrder(yr, 0, mon);
    MonthOrder(yr, mon + 1, 12);
    WholeYear(yr);
  }

  // A time has only one set of normal fields.
  lemma OneDate(f: Fields, g: Fields)
    requires Normal(f) && Normal(g) && TimeOf(f) == TimeOf(g)
    ensures f == g
  {
    hide MonthDays, DayOf;
    var d, e := DayOf(f.yr, f.mon, f.day), DayOf(g.yr, g.mon, g.day);
    assert d == e;
    assert f.hr == g.hr && f.min == g.min && f.sec == g.sec && f.msec == g.msec;
    SameDay(f.yr, f.mon, f.day, g.yr, g.mon, g.day);
  }

  lemma SameDay(yr: int, mon: nat, day: int, yr1: int, mon1: nat, day1: int)
    requires mon < 12 && 1 <= day <= MonthDays(yr, mon) && mon1 < 12 && 1 <= day1 <= MonthDays(yr1, mon1)
    requires DayOf(yr, mon, day) == DayOf(yr1, mon1, day1)
    ensures yr == yr1 && mon == mon1 && day == day1
  {
    hide DaysInYear, DaysFromYear, InYear;
    NormalDay(yr, mon, day);
    NormalDay(yr1, mon1, day1);
    OneYear(DayOf(yr, mon, day), yr, yr1);
    if mon < mon1 {
      MonthOrder(yr, mon + 1, mon1);
    } else if mon1 < mon {
      MonthOrder(yr, mon1 + 1, mon);
    }
    assert mon as int / 12 == 0 && mon as int % 12 == mon;
  }

  // The fields of a time.
  method DestructDate(time: int) returns (f: Fields)
    ensures Normal(f) && TimeOf(f) == time && forall g | Normal(g) && TimeOf(g) == time :: g == f
  {
    hide DaysInYear, DaysFromYear, Normal, TimeOf;
    Floors(time, MS_PER_DAY);
    var h := Mod(time, MS_PER_DAY);
    var days := Div(time - h, MS_PER_DAY);
    DayPart(time);
    var ms := h % 1000;
    h := (h - ms) / 1000;
    var s := h % 60;
    h := (h - s) / 60;
    var m := h % 60;
    h := (h - m) / 60;
    assert ((h * 60 + m) * 60 + s) * 1000 + ms == time % MS_PER_DAY && 0 <= h < 24;
    Floors(days + 4, 7);
    var wd := Mod(days + 4, 7);
    var y, d := YearFromDays(days);
    var i, rest := MonthFromDay(y, d);
    f := Fields(wd, y, i, rest + 1, h, m, s, ms);
    FieldsFit(f, time, days);
    forall g | Normal(g) && TimeOf(g) == time ensures g == f {
      OneDate(f, g);
    }
  }

  lemma DayPart(time: int)
    ensures Div(time - time % MS_PER_DAY, MS_PER_DAY) == time / MS_PER_DAY
    ensures time == time / MS_PER_DAY * MS_PER_DAY + time % MS_PER_DAY
  {
  }

  // The last month takes what the others leave.
  method MonthFromDay(y: int, d: int) returns (i: nat, rest: int)
    requires 0 <= d < DaysInYear(y)
    ensures i < 12 && 0 <= rest < MonthDays(y, i) && MonthStart(y, i) + rest == d
  {
    hide DaysInYear;
    i, rest := 0, d;
    while i < 11
      invariant 0 <= i <= 11 && rest >= 0 && MonthStart(y, i) + rest == d
    {
      var md := MONTH_DAYS[i];
      if i == 1 {
        md := md + (DaysInYear(y) - 365);
      }
      if rest < md {
        break;
      }
      rest := rest - md;
      i := i + 1;
    }
    WholeYear(y);
  }

  lemma FieldsFit(f: Fields, time: int, days: int)
    requires 0 <= f.mon < 12 && 1 <= f.day <= MonthDays(f.yr, f.mon)
    requires MonthStart(f.yr, f.mon) + f.day - 1 == days - DaysFromYear(f.yr) && f.wday == (days + 4) % 7
    requires 0 <= f.hr < 24 && 0 <= f.min < 60 && 0 <= f.sec < 60 && 0 <= f.msec < 1000
    requires ((f.hr * 60 + f.min) * 60 + f.sec) * 1000 + f.msec == time % MS_PER_DAY && days == time / MS_PER_DAY
    ensures Normal(f) && TimeOf(f) == time
  {
    hide DaysInYear, DaysFromYear, MonthDays, MonthStart;
    assert f.mon / 12 == 0 && f.mon % 12 == f.mon;
  }
}
