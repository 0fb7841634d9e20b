// Dates in the ISO form: printing them and reading them back.
module IsoDates {
  import opened Wrappers
  import opened Arithmetic
  import opened Decimals
  import opened Calendar

  // ----- numbers of a fixed width -----

  // The last k digits of n.
  function Fixed(n: nat, k: nat): (r: string)
    ensures |r| == k && AllDigits(r)
  {
    if k == 0 then [] else Fixed(n / 10, k - 1) + [DigitChar(n % 10)]
  }

  lemma {:induction false} FixedNumber(n: nat, k: nat)
    requires n < Ten(k)
    ensures Number(Fixed(n, k)) == n
  {
    if k > 0 {
      FixedNumber(n / 10, k - 1);
      NumberAppend(Fixed(n / 10, k - 1), DigitChar(n % 10));
    }
  }

  // size digits from p on, before end.
  predicate DigitsAt(s: string, p: nat, end: nat, size: nat)
    requires end <= |s|
  {
    p + size <= end && AllDigits(s[p..p + size])
  }

  method NumberParse(s: string, p: nat, end: nat, size: nat) returns (value: Option<nat>)
    requires end <= |s|
    ensures value.Some? <==> size > 0 && DigitsAt(s, p, end, size)
    ensures value.Some? ==> value.value == Number(s[p..p + size])
  {
    var n: nat, i := 0, 0;
    while i == 0 || i != size
      invariant 0 <= i && (size > 0 ==> i <= size) && (i > 0 ==> p + i <= end && AllDigits(s[p..p + i]))
      invariant i == 0 ==> n == 0
      invariant i > 0 ==> n == Number(s[p..p + i])
      decreases end - p - i
    {
      if p + i >= end {
        return None;
      }
      var c := s[p + i];
      if !IsDigit(c) {
        assert size > 0 && p + size <= end ==> s[p..p + size][i] == c;
        return None;
      }
      assert s[p..p + i + 1] == s[p..p + i] + [c];
      NumberAppend(s[p..p + i], c);
      n := n * 10 + DigitValue(c);
      i := i + 1;
    }
    value := Some(n);
  }

  // ----- printing -----

  function YearText(y: int): string
    requires -1000000 < y < 1000000
  {
    if 0 <= y <= 9999 then Fixed(y, 4) else if y > 0 then ['+'] + Fixed(y, 6) else ['-'] + Fixed(0 - y, 6)
  }

  // Years from 0 to 9999 have four digits and the others a sign and six.
  lemma YearForm(y: int)
    requires -1000000 < y < 1000000
    ensures var s := YearText(y);
            if 0 <= y < 10000 then |s| == 4 && AllDigits(s) && Number(s) == y
            else |s| == 7 && s[0] == (if y < 0 then '-' else '+') && AllDigits(s[1..])
                 && Number(s[1..]) == if y < 0 then -y else y
  {
    hide AllDigits;
    assert Ten(4) == 10000;
    assert Ten(6) == 1000000;
    FixedNumber(if y < 0 then -y else y, if 0 <= y < 10000 then 4 else 6);
  }

  // Fields of which each has as many digits as there is room for.
  predicate Fits(f: Fields) {
    && -1000000 < f.yr < 1000000 && -1 <= f.mon < 99 && 0 <= f.day < 100
    && 0 <= f.hr < 100 && 0 <= f.min < 100 && 0 <= f.sec < 100 && 0 <= f.msec < 1000
  }

  // The form with the first parts only: year, month, day, minute, second or all.
  function IsoForm(f: Fields, parts: nat): string
    requires Fits(f) && 1 <= parts <= 6
  {
    if parts == 1 then YearText(f.yr)
    else if parts == 2 then IsoForm(f, 1) + ['-'] + Fixed(f.mon + 1, 2)
    else if parts == 3 then IsoForm(f, 2) + ['-'] + Fixed(f.day, 2)
    else IsoForm(f, 3) + ['T'] + TimeForm(f, parts) + ['Z']
  }

  function TimeForm(f: Fields, parts: nat): string
    requires Fits(f)
  {
    Fixed(f.hr, 2) + [':'] + Fixed(f.min, 2)
    + if parts <= 4 then [] else [':'] + Fixed(f.sec, 2) + if parts <= 5 then [] else ['.'] + Fixed(f.msec, 3)
  }

  lemma FormOf(f: Fields)
    requires Fits(f)
    ensures IsoForm(f, 6) == (YearText(f.yr) + ['-'] + Fixed(f.mon + 1, 2)) + ['-'] + Fixed(f.day, 2) + ['T']
            + TimeForm(f, 6) + ['Z']
  {
    hide YearText, Fixed, TimeForm;
    assert IsoForm(f, 2) == YearText(f.yr) + ['-'] + Fixed(f.mon + 1, 2);
    assert IsoForm(f, 3) == IsoForm(f, 2) + ['-'] + Fixed(f.day, 2);
  }

  function IsoText(f: Fields): string
    requires Fits(f)
  {
    IsoForm(f, 6)
  }

  lemma InRange(f: Fields)
    requires Normal(f) && -MAX_TIME <= TimeOf(f) <= MAX_TIME
    ensures Fits(f)
  {
    hide DaysFromYear, DaysInYear;
    var d := DayOf(f.yr, f.mon, f.day);
    assert -100000000 <= d <= 100000000;
    NormalDay(f.yr, f.mon, f.day);
    if f.yr >= 1970 {
      YearsAddUp(1970, f.yr);
    } else {
      YearsAddUp(f.yr, 1970);
    }
  }

  method ToIsoString(time: Option<int>) returns (s: string)
    requires time.Some? ==> -MAX_TIME <= time.value <= MAX_TIME
    ensures time.None? ==> s == "Invalid Date"
    ensures time.Some? ==> forall f | Normal(f) && TimeOf(f) == time.value :: Fits(f) && s == IsoText(f)
  {
    hide DayOf, MonthDays, TimeOf;
    if time.None? {
      s := "Invalid Date";
      return;
    }
    var tm := DestructDate(time.value);
    InRange(tm);
    s := WriteFields(tm);
  }

  method WriteFields(tm: Fields) returns (s: string)
    requires Fits(tm)
    ensures s == IsoText(tm)
  {
    FormOf(tm);
    hide Fixed, IsoForm;
    var year := tm.yr;
    if year >= 0 && year <= 9999 {
      s := Fixed(year, 4);
    } else {
      s := [];
      if year > 0 {
        s := s + ['+'];
      }
      s := s + (if year < 0 then ['-'] + Fixed(0 - year, 6) else Fixed(year, 6));
    }
    assert s == YearText(tm.yr);
    hide YearText;
    var time := Fixed(tm.hr, 2) + [':'] + Fixed(tm.min, 2) + ([':'] + Fixed(tm.sec, 2) + (['.'] + Fixed(tm.msec, 3)));
    assert time == TimeForm(tm, 6);
    hide TimeForm;
    s := (s + ['-'] + Fixed(tm.mon + 1, 2)) + ['-'] + Fixed(tm.day, 2);
    s := s + ['T'] + time + ['Z'];
  }

  // ----- reading -----

  datatype Parsed = NotADate | Utc(f: Fields) | LocalTime(f: Fields) | OtherFormat

  function SignLength(s: string): (p: nat)
    ensures p <= |s|
  {
    if s != [] && (s[0] == '+' || s[0] == '-') then 1 else 0
  }

  // The strings that are read: a year of four or six digits, then perhaps a
  // month, a day and a time.
  predicate IsoShape(s: string) {
    var p := SignLength(s);
    && DigitsAt(s, p, |s|, 4)
    && (|s| == p + 4 || DateShape(s, p + 4)
        || (DigitsAt(s, p + 4, |s|, 2) && !(s[0] == '-' && Number(s[p..p + 4]) * 100 + Number(s[p + 4..p + 6]) == 0)
            && (|s| == p + 6 || DateShape(s, p + 6))))
  }

  predicate DateShape(s: string, q: nat) {
    && q < |s| && s[q] == '-' && DigitsAt(s, q + 1, |s|, 2)
    && (|s| == q + 3
        || (s[q + 3] == '-' && DigitsAt(s, q + 4, |s|, 2)
            && (|s| == q + 6 || (s[q + 6] == 'T' && TimeShape(s, q + 7, TimeEnd(s))))))
  }

  // A Z at the end says that the time is universal.
  function TimeEnd(s: string): (end: nat)
    ensures end <= |s|
  {
    if s != [] && s[|s| - 1] == 'Z' then |s| - 1 else |s|
  }

  predicate TimeShape(s: string, q: nat, end: nat)
    requires end <= |s|
  {
    && DigitsAt(s, q, end, 2) && q + 2 < end && s[q + 2] == ':' && DigitsAt(s, q + 3, end, 2)
    && (end == q + 5
        || (s[q + 5] == ':' && DigitsAt(s, q + 6, end, 2)
            && (end == q + 8 || (s[q + 8] == '.' && end > q + 9 && AllDigits(s[q + 9..end])))))
  }

  method ParseIso(s: string) returns (r: Parsed)
    ensures r == if IsoShape(s) then IsoValue(s)
                 else if s != [] && SignLength(s) == 0 && !DigitsAt(s, 0, |s|, 4) then OtherFormat else NotADate
  {
    hide AllDigits, Number, DateShape, DateValue;
    var end := |s|;
    if end == 0 {
      return NotADate;
    }
    var p := SignLength(s);
    var sign := p == 1;
    var tm := Fields(0, 0, 0, 1, 0, 0, 0, 0);
    var n := NumberParse(s, p, end, 4);
    if n.None? {
      return if sign then NotADate else OtherFormat;
    }
    tm := tm.(yr := n.value);
    p := p + 4;
    if p == end {
      return Utc(tm);
    }
    DateBegins(s, p);
    if s[p] != '-' {
      DateBegins(s, p + 2);
      n := NumberParse(s, p, end, 2);
      if n.None? {
        return NotADate;
      }
      tm := tm.(yr := tm.yr * 100 + n.value);
      if s[0] == '-' {
        if tm.yr == 0 {
          return NotADate;
        }
        tm := tm.(yr := 0 - tm.yr);
      }
      p := p + 2;
      if p == end {
        return Utc(tm);
      }
      if s[p] != '-' {
        return NotADate;
      }
    }
    r := ParseDate(s, p, tm);
  }

  method ParseDate(s: string, p0: nat, tm0: Fields) returns (r: Parsed)
    requires p0 < |s| && s[p0] == '-'
    ensures r == if DateShape(s, p0) then DateValue(s, p0, tm0) else NotADate
  {
    hide AllDigits, Number;
    var end, p, tm := |s|, p0, tm0;
    var n := NumberParse(s, p + 1, end, 2);
    if n.None? {
      return NotADate;
    }
    var month: int := n.value;
    tm := tm.(mon := month - 1);
    p := p + 3;
    if p == end {
      return Utc(tm);
    }
    if s[p] != '-' {
      return NotADate;
    }
    n := NumberParse(s, p + 1, end, 2);
    if n.None? {
      return NotADate;
    }
    tm := tm.(day := n.value);
    p := p + 3;
    if p == end {
      return Utc(tm);
    }
    if s[p] != 'T' {
      return NotADate;
    }
    var utc := true;
    end := end - 1;
    if s[end] != 'Z' {
      utc := false;
      end := end + 1;
    }
    var t, fraction := ParseTime(s, p + 1, end, tm);
    if t.None? {
      return NotADate;
    }
    if !fraction {
      return Utc(t.value);
    }
    r := if utc then Utc(t.value) else LocalTime(t.value);
  }

  function NumberAt(s: string, p: nat, size: nat): int
    requires p + size <= |s|
  {
    Number(s[p..p + size])
  }

  lemma DateBegins(s: string, q: nat)
    ensures DateShape(s, q) ==> q < |s| && s[q] == '-'
    ensures q + 2 <= |s| && DigitsAt(s, q, |s|, 2) ==> s[q] != '-'
  {
    if q + 2 <= |s| {
      assert s[q] == s[q..q + 2][0];
    }
  }

  function IsoValue(s: string): Parsed
    requires IsoShape(s)
  {
    var p := SignLength(s);
    var y := NumberAt(s, p, 4);
    if |s| == p + 4 then Utc(YearStart(y))
    else if DateShape(s, p + 4) then DateValue(s, p + 4, YearStart(y))
    else
      var y := y * 100 + NumberAt(s, p + 4, 2);
      var y := if s[0] == '-' then 0 - y else y;
      if |s| == p + 6 then Utc(YearStart(y)) else DateValue(s, p + 6, YearStart(y))
  }

  function YearStart(y: int): Fields { Fields(0, y, 0, 1, 0, 0, 0, 0) }

  function DateValue(s: string, q: nat, tm: Fields): Parsed
    requires DateShape(s, q)
  {
    var t := tm.(mon := NumberAt(s, q + 1, 2) - 1);
    if |s| == q + 3 then Utc(t)
    else
      var t := t.(day := NumberAt(s, q + 4, 2));
      if |s| == q + 6 then Utc(t)
      else
        var t := TimeValue(s, q + 7, TimeEnd(s), t);
        if TimeEnd(s) < |s| || !HasFraction(q + 7, TimeEnd(s)) then Utc(t) else LocalTime(t)
  }

  function TimeValue(s: string, q: nat, end: nat, tm: Fields): Fields
    requires end <= |s| && TimeShape(s, q, end)
  {
    var t := tm.(hr := NumberAt(s, q, 2), min := NumberAt(s, q + 3, 2));
    if end == q + 5 then t
    else
      var t := t.(sec := NumberAt(s, q + 6, 2));
      if end == q + 8 then t else t.(msec := Milliseconds(s[q + 9..end]))
  }

  // A time from q to end has more than hours, minutes and seconds.
  predicate HasFraction(q: nat, end: nat) { end > q + 8 }

  // A fraction of a second in milliseconds, cut off.
  function Milliseconds(s: string): int
    requires s != []
  {
    if |s| == 1 then 100 * Number(s) else if |s| == 2 then 10 * Number(s) else Number(s[..3])
  }

  // Fewer digits than three count as if zeros stood behind them.
  lemma FractionPadded(s: string)
    requires s != []
    ensures Milliseconds(s) == Number((s + "00")[..3])
  {
    var t := (s + "00")[..3];
    if |s| == 1 {
      assert t == s + "0" + "0";
      NumberShifted(s);
      NumberShifted(s + "0");
    } else if |s| == 2 {
      assert t == s + "0";
      NumberShifted(s);
    } else {
      assert t == s[..3];
    }
  }

  lemma NumberShifted(s: string)
    ensures Number(s + "0") == 10 * Number(s)
  {
    assert (s + "0")[..|s|] == s;
  }

  method ParseTime(s: string, p0: nat, end: nat, tm0: Fields) returns (r: Option<Fields>, fraction: bool)
    requires end <= |s|
    ensures r.Some? <==> TimeShape(s, p0, end)
    ensures r.Some? ==> r.value == TimeValue(s, p0, end, tm0) && (fraction <==> HasFraction(p0, end))
  {
    hide Number;
    var p, tm := p0, tm0;
    var n := NumberParse(s, p, end, 2);
    if n.None? {
      return None, false;
    }
    tm := tm.(hr := n.value);
    p := p + 2;
    if p >= end || s[p] != ':' {
      return None, false;
    }
    n := NumberParse(s, p + 1, end, 2);
    if n.None? {
      return None, false;
    }
    tm := tm.(min := n.value);
    p := p + 3;
    if p == end {
      return Some(tm), false;
    }
    if s[p] != ':' {
      return None, false;
    }
    n := NumberParse(s, p + 1, end, 2);
    if n.None? {
      return None, false;
    }
    tm := tm.(sec := n.value);
    p := p + 3;
    if p == end {
      return Some(tm), false;
    }
    if p > end || s[p] != '.' {
      return None, false;
    }
    p := p + 1;
    var length := if end - p < 3 then end - p else 3;
    n := NumberParse(s, p, end, length);
    FractionDigits(s, p, end, length);
    if n.None? {
      return None, false;
    }
    tm := tm.(msec := n.value);
    if end > p + length {
      n := NumberParse(s, p + length, end, end - p - length);
      if n.None? {
        return None, false;
      }
    }
    if length == 1 {
      tm := tm.(msec := tm.msec * 100);
    } else if length == 2 {
      tm := tm.(msec := tm.msec * 10);
    }
    r, fraction := Some(tm), true;
  }

  lemma DigitsConcat(a: string, b: string)
    ensures AllDigits(a + b) <==> AllDigits(a) && AllDigits(b)
  {
    assert forall i | 0 <= i < |a| :: (a + b)[i] == a[i];
    forall i | 0 <= i < |b| ensures (a + b)[|a| + i] == b[i] {
    }
    if AllDigits(a + b) {
      forall i | 0 <= i < |b| ensures IsDigit(b[i]) {
        assert IsDigit((a + b)[|a| + i]);
      }
    }
  }

  lemma FractionDigits(s: string, p: nat, end: nat, length: nat)
    requires p + length <= end <= |s|
    ensures AllDigits(s[p..end]) <==> AllDigits(s[p..p + length]) && AllDigits(s[p + length..end])
    ensures s[p..end][..length] == s[p..p + length]
  {
    assert s[p..end] == s[p..p + length] + s[p + length..end];
    DigitsConcat(s[p..p + length], s[p + length..end]);
  }

  // The fields that a form leaves out begin the year, month, day or minute.
  function Cut(f: Fields, parts: nat): Fields {
    Fields(0, f.yr, if parts >= 2 then f.mon else 0, if parts >= 3 then f.day else 1,
           if parts >= 4 then f.hr else 0, if parts >= 4 then f.min else 0,
           if parts >= 5 then f.sec else 0, if parts >= 6 then f.msec else 0)
  }

  // ----- reading back -----

  function AfterYear(f: Fields, parts: nat): string
    requires Fits(f) && 1 <= parts <= 6
  {
    if parts == 1 then []
    else
      ['-'] + Fixed(f.mon + 1, 2)
      + if parts == 2 then []
        else ['-'] + Fixed(f.day, 2) + if parts == 3 then [] else ['T'] + TimeForm(f, parts) + ['Z']
  }

  lemma FormSplit(f: Fields, parts: nat)
    requires Fits(f) && 1 <= parts <= 6
    ensures IsoForm(f, parts) == YearText(f.yr) + AfterYear(f, parts)
  {
    hide YearText, Fixed, TimeForm;
    assert IsoForm(f, 2) == YearText(f.yr) + (['-'] + Fixed(f.mon + 1, 2));
    assert IsoForm(f, 3) == YearText(f.yr) + (['-'] + Fixed(f.mon + 1, 2) + (['-'] + Fixed(f.day, 2)));
  }

  // What stands where after the year.
  lemma PartsAfterYear(f: Fields, parts: nat)
    requires Fits(f) && 1 <= parts <= 6
    ensures var t := AfterYear(f, parts);
            && (parts == 1 ==> t == [])
            && (parts >= 2 ==> |t| >= 3 && t[0] == '-' && t[1..3] == Fixed(f.mon + 1, 2))
            && (parts == 2 ==> |t| == 3)
            && (parts >= 3 ==> |t| >= 6 && t[3] == '-' && t[4..6] == Fixed(f.day, 2))
            && (parts == 3 ==> |t| == 6)
            && (parts >= 4 ==> |t| >= 13 && t[6] == 'T' && t[|t| - 1] == 'Z' && t[7..|t| - 1] == TimeForm(f, parts))
  {
    hide Fixed, TimeForm;
    TimeParts(f, parts);
  }

  lemma TimeParts(f: Fields, parts: nat)
    requires Fits(f)
    ensures var t := TimeForm(f, parts);
            && |t| >= 5 && t[0..2] == Fixed(f.hr, 2) && t[2] == ':' && t[3..5] == Fixed(f.min, 2)
            && (parts <= 4 ==> |t| == 5)
            && (parts >= 5 ==> |t| >= 8 && t[5] == ':' && t[6..8] == Fixed(f.sec, 2))
            && (parts == 5 ==> |t| == 8)
            && (parts >= 6 ==> |t| == 12 && t[8] == '.' && t[9..12] == Fixed(f.msec, 3))
  {
    hide Fixed;
  }

  lemma Inside(s: string, q: nat, t: string, lo: nat, hi: nat)
    requires q + |t| <= |s| && s[q..q + |t|] == t && lo <= hi <= |t|
    ensures s[q + lo..q + hi] == t[lo..hi] && forall i | 0 <= i < |t| :: s[q + i] == t[i]
  {
    assert forall i | 0 <= i < |t| :: s[q..q + |t|][i] == t[i];
    var u, v := s[q + lo..q + hi], t[lo..hi];
    assert |u| == |v| && forall i | 0 <= i < |u| :: u[i] == v[i];
  }

  lemma TenValues()
    ensures Ten(1) == 10 && Ten(2) == 100 && Ten(3) == 1000 && Ten(4) == 10000 && Ten(6) == 1000000
  {
  }

  lemma TimeReadBack(s: string, q: nat, end: nat, f: Fields, parts: nat, tm: Fields)
    requires Fits(f) && 4 <= parts <= 6 && q <= end <= |s| && s[q..end] == TimeForm(f, parts)
    ensures TimeShape(s, q, end)
    ensures TimeValue(s, q, end, tm) == tm.(hr := f.hr, min := f.min, sec := if parts >= 5 then f.sec else tm.sec,
                                            msec := if parts == 6 then f.msec else tm.msec)
  {
    hide Fixed, AllDigits, Number;
    var t := TimeForm(f, parts);
    TimeParts(f, parts);
    TenValues();
    Inside(s, q, t, 0, 2);
    Inside(s, q, t, 3, 5);
    FixedNumber(f.hr, 2);
    FixedNumber(f.min, 2);
    if parts >= 5 {
      Inside(s, q, t, 6, 8);
      FixedNumber(f.sec, 2);
    }
    if parts == 6 {
      Inside(s, q, t, 9, 12);
      FixedNumber(f.msec, 3);
      assert s[q + 9..end][..3] == s[q + 9..end];
    }
  }

  lemma DateReadBack(s: string, q: nat, f: Fields, parts: nat, tm: Fields)
    requires Fits(f) && 2 <= parts <= 6 && q <= |s| && s[q..] == AfterYear(f, parts)
    requires tm == YearStart(f.yr)
    ensures DateShape(s, q) && DateValue(s, q, tm) == Utc(Cut(f, parts))
  {
    hide Fixed, AllDigits, Number, AfterYear;
    var t := AfterYear(f, parts);
    PartsAfterYear(f, parts);
    TenValues();
    Inside(s, q, t, 1, 3);
    FixedNumber(f.mon + 1, 2);
    if parts >= 3 {
      Inside(s, q, t, 4, 6);
      FixedNumber(f.day, 2);
    }
    if parts >= 4 {
      Inside(s, q, t, 7, |t| - 1);
      TimeReadBack(s, q + 7, |s| - 1, f, parts, tm.(mon := f.mon, day := f.day));
    }
  }

  // Every form is read back as the fields it shows.
  lemma ReadBack(f: Fields, parts: nat)
    requires Fits(f) && 1 <= parts <= 6
    ensures IsoShape(IsoForm(f, parts)) && IsoValue(IsoForm(f, parts)) == Utc(Cut(f, parts))
  {
    hide Fixed, AllDigits, Number, AfterYear, DateShape, DateValue, IsoForm;
    var s, y := IsoForm(f, parts), YearText(f.yr);
    FormSplit(f, parts);
    assert s[..|y|] == y && s[|y|..] == AfterYear(f, parts);
    PartsAfterYear(f, parts);
    TenValues();
    YearReadBack(s, f.yr);
    if parts >= 2 {
      DateReadBack(s, |y|, f, parts, YearStart(f.yr));
    }
    DateBegins(s, 5);
  }

  lemma YearReadBack(s: string, yr: int)
    requires -1000000 < yr < 1000000 && |YearText(yr)| <= |s| && s[..|YearText(yr)|] == YearText(yr)
    ensures var p := SignLength(s);
            if 0 <= yr <= 9999 then p == 0 && DigitsAt(s, 0, |s|, 4) && NumberAt(s, 0, 4) == yr && |YearText(yr)| == 4
            else
              && p == 1 && |YearText(yr)| == 7 && (s[0] == '-' <==> yr < 0)
              && DigitsAt(s, 1, |s|, 4) && DigitsAt(s, 5, |s|, 2)
              && NumberAt(s, 1, 4) * 100 + NumberAt(s, 5, 2) == if yr < 0 then 0 - yr else yr
  {
    hide Number, Fixed, AllDigits;
    var y := YearText(yr);
    TenValues();
    if 0 <= yr <= 9999 {
      Inside(s, 0, y, 0, 4);
      FixedNumber(yr, 4);
      NoSign(y);
    } else {
      SixReadBack(s, if yr < 0 then '-' else '+', if yr < 0 then 0 - yr else yr);
    }
  }

  lemma NoSign(y: string)
    requires y != [] && AllDigits(y)
    ensures y[0] != '+' && y[0] != '-'
  {
    assert IsDigit(y[0]);
  }

  lemma SixReadBack(s: string, sign: char, n: nat)
    requires n < 1000000 && |s| >= 7 && s[..7] == [sign] + Fixed(n, 6)
    ensures s[0] == sign && DigitsAt(s, 1, |s|, 4) && DigitsAt(s, 5, |s|, 2)
    ensures NumberAt(s, 1, 4) * 100 + NumberAt(s, 5, 2) == n
  {
    hide Number, Fixed, AllDigits;
    var y := [sign] + Fixed(n, 6);
    TenValues();
    FixedSplit(n);
    assert y[1..5] == Fixed(n / 100, 4) && y[5..7] == Fixed(n % 100, 2);
    Inside(s, 0, y, 1, 5);
    Inside(s, 0, y, 5, 7);
    FixedNumber(n / 100, 4);
    FixedNumber(n % 100, 2);
  }

  lemma FixedSplit(n: nat)
    ensures Fixed(n, 6) == Fixed(n / 100, 4) + Fixed(n % 100, 2)
  {
    LastDigit(n, 6);
    LastDigit(n / 10, 5);
    LastDigit(n % 100, 2);
    LastDigit(n % 100 / 10, 1);
    assert Fixed(n % 100 / 10 / 10, 0) == [];
    hide Fixed;
    assert n / 10 / 10 == n / 100 && n % 100 / 10 % 10 == n / 10 % 10 && n % 100 % 10 == n % 10;
  }

  lemma LastDigit(n: nat, k: nat)
    requires k > 0
    ensures Fixed(n, k) == Fixed(n / 10, k - 1) + [DigitChar(n % 10)]
  {
  }

  // A minus sign counts only before a year of six digits; before one of four
  // digits it is read over.
  lemma SignCounts(s: string)
    requires IsoShape(s) && s[0] == '-'
    ensures IsoValue(s).Utc? || IsoValue(s).LocalTime?
    ensures IsoValue(s).f.yr < 0 <==> |s| > 5 && s[5] != '-'
  {
    hide Number, DateShape, AllDigits;
    DateBegins(s, 5);
    hide DigitsAt;
    YearDigits(s, 1, 4);
    if |s| > 5 && s[5] != '-' {
      YearDigits(s, 5, 2);
    }
  }

  lemma YearDigits(s: string, p: nat, size: nat)
    requires DigitsAt(s, p, |s|, size)
    ensures NumberAt(s, p, size) >= 0
  {
    NumberBound(s[p..p + size]);
  }

  // ----- the zone -----

  predicate NoMark(c: char) { c != 'T' && c != '.' }

  lemma DigitsNoMark(s: string, p: nat, end: nat, size: nat)
    requires end <= |s| && DigitsAt(s, p, end, size)
    ensures forall i | p <= i < p + size :: NoMark(s[i])
  {
    forall i | p <= i < p + size ensures NoMark(s[i]) {
      assert s[i] == s[p..p + size][i - p];
    }
  }

  lemma TimeMarks(s: string, q: nat, end: nat)
    requires end <= |s| && TimeShape(s, q, end)
    ensures HasFraction(q, end) ==> s[q + 8] == '.'
    ensures !HasFraction(q, end) ==> forall i | q <= i < end :: NoMark(s[i])
  {
    hide AllDigits;
    DigitsNoMark(s, q, end, 2);
    DigitsNoMark(s, q + 3, end, 2);
    if end > q + 5 {
      DigitsNoMark(s, q + 6, end, 2);
    }
  }

  lemma DateMarks(s: string, q: nat)
    requires DateShape(s, q) && forall i | 0 <= i < q :: NoMark(s[i])
    ensures |s| <= q + 6 ==> forall i | 0 <= i < |s| :: NoMark(s[i])
    ensures |s| > q + 6 && TimeEnd(s) == |s| && HasFraction(q + 7, |s|) ==> s[q + 15] == '.'
    ensures |s| > q + 6 && TimeEnd(s) == |s| && !HasFraction(q + 7, |s|) ==> forall i | 0 <= i < |s| :: s[i] != '.'
  {
    hide AllDigits;
    DigitsNoMark(s, q + 1, |s|, 2);
    if |s| > q + 3 {
      DigitsNoMark(s, q + 4, |s|, 2);
    }
    if |s| > q + 6 {
      TimeMarks(s, q + 7, TimeEnd(s));
    }
  }

  // A time without a zone is taken as universal just when it has no fraction of
  // a second; with one it is local.
  lemma MissingZone(s: string)
    requires IsoShape(s) && 'T' in s && s[|s| - 1] != 'Z'
    ensures IsoValue(s).Utc? <==> '.' !in s
  {
    hide Number, AllDigits, DateShape, DateValue;
    var p := SignLength(s);
    DigitsNoMark(s, p, |s|, 4);
    DateBegins(s, p + 4);
    var q := p + 4;
    if |s| > p + 4 && s[p + 4] != '-' {
      DigitsNoMark(s, p + 4, |s|, 2);
      q := p + 6;
    }
    assert s != [] && forall i | 0 <= i < q :: NoMark(s[i]);
    assert |s| > q && DateShape(s, q);
    DateMarks(s, q);
    ZoneOf(s, q);
  }

  lemma ZoneOf(s: string, q: nat)
    requires DateShape(s, q) && |s| > q + 6 && TimeEnd(s) == |s|
    ensures forall tm :: DateValue(s, q, tm).Utc? <==> !HasFraction(q + 7, |s|)
  {
    hide Number, AllDigits;
  }

  // With no zone, two spellings of a moment are universal and local.
  lemma ZonelessUniversal()
    ensures IsoShape("1970-01-01T00:00") && IsoValue("1970-01-01T00:00").Utc?
  {
    var s := "1970-01-01T00:00";
    assert s[10] == 'T' && s[13] == ':';
    TwoDigits(s, 11, 16);
    TwoDigits(s, 14, 16);
    assert TimeShape(s, 11, 16);
    FourDigits(s, 0);
    TwoDigits(s, 5, 16);
    TwoDigits(s, 8, 16);
    assert DateShape(s, 4);
    MissingZone(s);
  }

  lemma ZonelessLocal()
    ensures IsoShape("1970-01-01T00:00:00.0") && IsoValue("1970-01-01T00:00:00.0").LocalTime?
  {
    var t := "1970-01-01T00:00:00.0";
    EpochShape(t);
    FourDigits(t, 0);
    hide DateShape;
    MissingZone(t);
  }

  lemma EpochShape(t: string)
    requires t == "1970-01-01T00:00:00.0"
    ensures DateShape(t, 4)
  {
    hide AllDigits;
    assert t[10] == 'T' && t[13] == t[16] == ':' && t[19] == '.';
    TwoDigits(t, 11, 21);
    TwoDigits(t, 14, 21);
    TwoDigits(t, 17, 21);
    OneDigit(t[20..21]);
    TwoDigits(t, 5, 21);
    TwoDigits(t, 8, 21);
  }

  lemma OneDigit(s: string)
    requires |s| == 1 && IsDigit(s[0])
    ensures AllDigits(s)
  {
  }

  lemma TwoDigits(s: string, p: nat, end: nat)
    requires p + 2 <= end <= |s| && IsDigit(s[p]) && IsDigit(s[p + 1])
    ensures DigitsAt(s, p, end, 2)
  {
  }

  lemma FourDigits(s: string, p: nat)
    requires p + 4 <= |s| && IsDigit(s[p]) && IsDigit(s[p + 1]) && IsDigit(s[p + 2]) && IsDigit(s[p + 3])
    ensures DigitsAt(s, p, |s|, 4)
  {
  }

  // ----- fields out of range -----

  // Month, day, hour, minute and second are those of a moment.
  predicate Ranged(f: Fields) {
    && 0 <= f.mon < 12 && 1 <= f.day <= MonthDays(f.yr, f.mon)
    && 0 <= f.hr < 24 && 0 <= f.min < 60 && 0 <= f.sec < 60
  }

  lemma MillisecondsBound(s: string)
    requires s != [] && AllDigits(s)
    ensures 0 <= Milliseconds(s) < 1000
  {
    hide Number, Ten;
    TenValues();
    if |s| < 3 {
      NumberBound(s);
    } else {
      NumberBound(s[..3]);
    }
  }

  lemma FractionBound(s: string)
    requires IsoShape(s)
    ensures IsoValue(s).Utc? || IsoValue(s).LocalTime?
    ensures 0 <= IsoValue(s).f.msec < 1000
  {
    hide Number, DateShape, DateValue, AllDigits;
    var p := SignLength(s);
    var y := NumberAt(s, p, 4);
    if |s| > p + 4 {
      if DateShape(s, p + 4) {
        DateFraction(s, p + 4, YearStart(y));
      } else if |s| > p + 6 {
        var y6 := y * 100 + NumberAt(s, p + 4, 2);
        DateFraction(s, p + 6, YearStart(if s[0] == '-' then 0 - y6 else y6));
      }
    }
  }

  lemma DateFraction(s: string, q: nat, tm: Fields)
    requires DateShape(s, q) && tm.msec == 0
    ensures DateValue(s, q, tm).Utc? || DateValue(s, q, tm).LocalTime?
    ensures 0 <= DateValue(s, q, tm).f.msec < 1000
  {
    hide Number, Milliseconds;
    if |s| > q + 6 && HasFraction(q + 7, TimeEnd(s)) {
      MillisecondsBound(s[q + 16..TimeEnd(s)]);
    }
  }

  // The moment a text stands for has the fields written in the text, but for the
  // weekday, exactly when these are in range; others are carried over.
  lemma FieldsWritten(s: string, g: Fields)
    requires IsoShape(s) && IsoValue(s).Utc? && Normal(g) && TimeOf(g) == TimeOf(IsoValue(s).f)
    ensures g.(wday := 0) == IsoValue(s).f.(wday := 0) <==> Ranged(IsoValue(s).f)
  {
    hide IsoShape, IsoValue, DaysFromYear, DaysInYear;
    FractionBound(s);
    var f := IsoValue(s).f;
    if Ranged(f) {
      var h := f.(wday := (DayOf(f.yr, f.mon, f.day) + 4) % 7);
      hide TimeOf, DayOf;
      SameMoment(f, h.wday);
      OneDate(g, h);
    }
  }

  lemma SameMoment(f: Fields, wday: int)
    ensures TimeOf(f.(wday := wday)) == TimeOf(f)
  {
  }

  // The thirteenth month of a year is the first month of the next.
  lemma ThirteenthMonth()
    ensures var s, t := "1970-13-01", "1971-01-01";
            && IsoShape(s) && IsoShape(t) && IsoValue(s).Utc? && IsoValue(t).Utc?
            && !Ranged(IsoValue(s).f) && Ranged(IsoValue(t).f) && TimeOf(IsoValue(s).f) == TimeOf(IsoValue(t).f)
  {
    hide IsoShape, IsoValue, DaysFromYear, DaysInYear, Number, DigitValue;
    var s, t := "1970-13-01", "1971-01-01";
    CharDigits();
    DateRead(s, 1970, 13, 1);
    DateRead(t, 1971, 1, 1);
    var f, g := Fields(0, 1970, 12, 1, 0, 0, 0, 0), Fields(0, 1971, 0, 1, 0, 0, 0, 0);
    assert DayOf(1970, 12, 1) == DayOf(1971, 0, 1);
  }

  lemma CharDigits()
    ensures forall c | c in {'0', '1', '3', '7', '9'} :: IsDigit(c)
    ensures DigitValue('0') == 0 && DigitValue('1') == 1 && DigitValue('3') == 3
    ensures DigitValue('7') == 7 && DigitValue('9') == 9
  {
  }

  // A text of year, month and day.
  lemma DateRead(s: string, yr: int, month: int, day: int)
    requires |s| == 10 && s[4] == s[7] == '-' && forall i | 0 <= i < 10 && i != 4 && i != 7 :: IsDigit(s[i])
    requires yr == DigitValue(s[0]) * 1000 + DigitValue(s[1]) * 100 + DigitValue(s[2]) * 10 + DigitValue(s[3])
    requires month == DigitValue(s[5]) * 10 + DigitValue(s[6]) && day == DigitValue(s[8]) * 10 + DigitValue(s[9])
    ensures IsoShape(s) && IsoValue(s) == Utc(Fields(0, yr, month - 1, day, 0, 0, 0, 0))
  {
    FourDigits(s, 0);
    TwoDigits(s, 5, 10);
    TwoDigits(s, 8, 10);
    assert DateShape(s, 4);
    NumberOfTwo(s[5..7]);
    NumberOfTwo(s[8..10]);
    NumberOfTwo(s[0..4][..2]);
    NumberAppend(s[0..4][..2], s[2]);
    NumberAppend(s[0..4][..2] + [s[2]], s[3]);
    assert s[0..4] == s[0..4][..2] + [s[2]] + [s[3]];
  }

  lemma NumberOfTwo(s: string)
    requires |s| == 2
    ensures Number(s) == DigitValue(s[0]) * 10 + DigitValue(s[1])
  {
    assert s == [] + [s[0]] + [s[1]];
    NumberAppend([], s[0]);
    NumberAppend([] + [s[0]], s[1]);
  }

  // ----- times -----

  // What a date string stands for; for the time zone and for other formats
  // there is no answer here.
  datatype Answer = Time(t: Option<int>) | InLocalTime(f: Fields) | NotIso

  lemma ShapeBegins(s: string)
    requires IsoShape(s)
    ensures s != [] && DigitsAt(s, SignLength(s), |s|, 4) && (IsoValue(s).Utc? || IsoValue(s).LocalTime?)
  {
  }

  method StringParse(s: string) returns (r: Answer)
    ensures forall f: Fields, parts: nat | Fits(f) && 1 <= parts <= 6 && s == IsoForm(f, parts) ::
              r == Time(TimeClip(TimeOf(Cut(f, parts))))
    ensures r.NotIso? <==> s != [] && SignLength(s) == 0 && !DigitsAt(s, 0, |s|, 4)
    ensures forall f :: r == InLocalTime(f) <==> IsoShape(s) && IsoValue(s) == LocalTime(f)
    ensures IsoShape(s) && IsoValue(s).Utc? ==> r == Time(TimeClip(TimeOf(IsoValue(s).f)))
    ensures !IsoShape(s) && !r.NotIso? ==> r == Time(None)
  {
    hide DayOf, IsoShape, IsoValue, TimeOf, IsoForm;
    var p := ParseIso(s);
    if IsoShape(s) {
      ShapeBegins(s);
    }
    forall f: Fields, parts: nat | Fits(f) && 1 <= parts <= 6 && s == IsoForm(f, parts)
      ensures p == Utc(Cut(f, parts))
    {
      ReadBack(f, parts);
    }
    match p {
      case NotADate => r := Time(None);
      case OtherFormat => r := NotIso;
      case LocalTime(f) => r := InLocalTime(f);
      case Utc(f) =>
        var t := MakeDate(f);
        r := Time(t);
    }
  }

  // A time printed is read back.
  method PrintAndParse(time: int) returns (r: Answer)
    requires -MAX_TIME <= time <= MAX_TIME
    ensures r == Time(Some(time))
  {
    hide DayOf, TimeOf, MonthDays, IsoForm;
    var s := ToIsoString(Some(time));
    ghost var f := DestructDate(time);
    assert Fits(f) && s == IsoForm(f, 6);
    r := StringParse(s);
    SameTime(f);
  }

  lemma SameTime(f: Fields)
    ensures TimeOf(Cut(f, 6)) == TimeOf(f)
  {
  }
}
