/** The clock as RFC 3339 text: two calendar loops that have to invert the Gregorian day count. */
module Clock {
  import opened Text

  const DAY: nat := 86_400

  datatype Stamp = Stamp(year: nat, month: nat, day: nat, hour: nat, minute: nat, second: nat)

  // ------------------------------------------------------------------ the calendar

  /** RFC 3339 Appendix C. */
  predicate Leap(y: nat) {
    (y % 4 == 0 && y % 100 != 0) || y % 400 == 0
  }

  function YearLength(y: nat): nat {
    if Leap(y) then 366 else 365
  }

  function MonthLengths(y: nat): (lengths: seq<nat>)
    ensures |lengths| == 12
  {
    [31, if Leap(y) then 29 else 28, 31, 30, 31, 30, 31, 31, 30, 31, 30, 31]
  }

  /** Days from 0001-01-01 to the first of January of `y`, in closed form. */
  function DaysBeforeYear(y: nat): int
    requires y >= 1
  {
    365 * (y - 1) + (y - 1) / 4 - (y - 1) / 100 + (y - 1) / 400
  }

  /** Days from the first of January to the first of the month with index `m`. */
  function DaysBeforeMonth(y: nat, m: nat): nat
    requires m <= 12
  {
    if m == 0 then 0 else DaysBeforeMonth(y, m - 1) + MonthLengths(y)[m - 1]
  }

  /** RFC 3339 section 5.7, for times from 1970 on and without leap seconds. */
  predicate Valid(t: Stamp) {
    && 1970 <= t.year && 1 <= t.month <= 12
    && 1 <= t.day <= MonthLengths(t.year)[t.month - 1]
    && t.hour < 24 && t.minute < 60 && t.second < 60
  }

  /** The date's day number, counting 1970-01-01 as 0. */
  function DayNumber(t: Stamp): int
    requires Valid(t)
  {
    DaysBeforeYear(t.year) - DaysBeforeYear(1970) + DaysBeforeMonth(t.year, t.month - 1) + t.day - 1
  }

  function Seconds(t: Stamp): int
    requires Valid(t)
  {
    DayNumber(t) * DAY + t.hour * 3600 + t.minute * 60 + t.second
  }

  /** The year loop's step: each year is as long as the closed form says. */
  lemma YearStep(y: nat)
    requires y >= 1
    ensures DaysBeforeYear(y + 1) == DaysBeforeYear(y) + YearLength(y)
  {
    DivideBy4(y - 1);
    DivideBy100(y - 1);
    DivideBy400(y - 1);
    DivideBy100(y);
    DivideBy400(y);
  }

  lemma DivideBy4(x: nat)
    ensures (x + 1) / 4 == x / 4 + if (x + 1) % 4 == 0 then 1 else 0
  {
  }

  lemma DivideBy100(x: nat)
    ensures (x + 1) / 100 == x / 100 + if (x + 1) % 100 == 0 then 1 else 0
    ensures x % 100 == 0 ==> x % 4 == 0
  {
    assert x == 4 * (25 * (x / 100)) + x % 100;
  }

  lemma DivideBy400(x: nat)
    ensures (x + 1) / 400 == x / 400 + if (x + 1) % 400 == 0 then 1 else 0
    ensures x % 400 == 0 ==> x % 100 == 0
  {
    assert x == 100 * (4 * (x / 400)) + x % 400;
  }

  /** The calendar repeats every 400 years, which are 146097 days. */
  lemma CalendarPeriod(y: nat)
    requires y >= 1
    ensures DaysBeforeYear(y + 400) == DaysBeforeYear(y) + 146_097
    ensures MonthLengths(y + 400) == MonthLengths(y)
  {
    assert (y + 399) / 4 == (y - 1) / 4 + 100;
    assert (y + 399) / 100 == (y - 1) / 100 + 4;
    assert (y + 399) / 400 == (y - 1) / 400 + 1;
  }

  lemma YearsAscend(a: nat, b: nat)
    requires 1 <= a < b
    ensures DaysBeforeYear(a) + YearLength(a) <= DaysBeforeYear(b)
    decreases b - a
  {
    YearStep(a);
    if a + 1 < b {
      YearsAscend(a + 1, b);
    }
  }

  lemma {:induction false} MonthsAscend(y: nat, a: nat, b: nat)
    requires a < b <= 12
    ensures DaysBeforeMonth(y, a) + MonthLengths(y)[a] <= DaysBeforeMonth(y, b)
  {
    if a < b - 1 {
      MonthsAscend(y, a, b - 1);
    }
  }

  lemma MonthsFillYear(y: nat)
    ensures DaysBeforeMonth(y, 12) == YearLength(y)
  {
    var leap := if Leap(y) then 1 else 0;
    assert DaysBeforeMonth(y, 1) == 31;
    assert DaysBeforeMonth(y, 2) == 59 + leap;
    assert DaysBeforeMonth(y, 4) == 120 + leap;
    assert DaysBeforeMonth(y, 6) == 181 + leap;
    assert DaysBeforeMonth(y, 8) == 243 + leap;
    assert DaysBeforeMonth(y, 10) == 304 + leap;
  }

  // ------------------------------------------------------------------ the loops

  /** The date and time `secs` seconds after the epoch. */
  method FromEpoch(secs: nat) returns (t: Stamp)
    ensures Valid(t)
    ensures Seconds(t) == secs
  {
    var days, rem := secs / DAY, secs % DAY;
    var y: nat, d: nat := 1970, days;
    while true
      invariant y >= 1970
      invariant DaysBeforeYear(y) - DaysBeforeYear(1970) + d == days
      decreases d
    {
      var len := YearLength(y);
      if d < len { break; }
      YearStep(y);
      d := d - len;
      y := y + 1;
    }
    var months := MonthLengths(y);
    var m: nat := 0;
    MonthsFillYear(y);
    ghost var ofYear := d;
    while d >= months[m]
      invariant m < 12
      invariant DaysBeforeMonth(y, m) + d == ofYear < YearLength(y)
      decreases d
    {
      if m < 11 { MonthsAscend(y, m, 11); }
      d := d - months[m];
      m := m + 1;
    }
    t := Stamp(y, m + 1, d + 1, rem / 3600, rem % 3600 / 60, rem % 60);
    ClockFields(rem);
  }

  lemma ClockFields(rem: nat)
    requires rem < DAY
    ensures rem / 3600 < 24 && rem % 3600 / 60 < 60
    ensures rem == rem / 3600 * 3600 + rem % 3600 / 60 * 60 + rem % 60
  {
    assert rem % 60 == rem % 3600 % 60 by {
      assert rem == 60 * (60 * (rem / 3600)) + rem % 3600;
    }
  }

  /** The day number orders dates as year, month, day do. */
  lemma DatesAscend(a: Stamp, b: Stamp)
    requires Valid(a) && Valid(b)
    requires a.year < b.year || (a.year == b.year && (a.month < b.month || (a.month == b.month && a.day < b.day)))
    ensures DayNumber(a) < DayNumber(b)
  {
    if a.year < b.year {
      YearsAscend(a.year, b.year);
      MonthsFillYear(a.year);
      MonthsAscend(a.year, a.month - 1, 12);
    } else if a.month < b.month {
      MonthsAscend(a.year, a.month - 1, b.month - 1);
    }
  }

  /** Year first, second last. */
  predicate Earlier(a: Stamp, b: Stamp) {
    || a.year < b.year
    || (a.year == b.year && (a.month < b.month
    || (a.month == b.month && (a.day < b.day
    || (a.day == b.day && (a.hour < b.hour
    || (a.hour == b.hour && (a.minute < b.minute
    || (a.minute == b.minute && a.second < b.second)))))))))
  }

  /** Seconds since the epoch order times exactly as their fields do; in particular no two valid
      times share a second count, so what FromEpoch returns is the only answer. */
  lemma SecondsOrderStamps(a: Stamp, b: Stamp)
    requires Valid(a) && Valid(b)
    ensures Seconds(a) < Seconds(b) <==> Earlier(a, b)
    ensures Seconds(a) == Seconds(b) <==> a == b
  {
    if (a.year, a.month, a.day) != (b.year, b.month, b.day) {
      var before := a.year < b.year || (a.year == b.year && (a.month < b.month || (a.month == b.month && a.day < b.day)));
      if before {
        DatesAscend(a, b);
      } else {
        DatesAscend(b, a);
      }
    }
  }

  // ------------------------------------------------------------------ the text

  function Digit(n: nat): char
    requires n < 10
  {
    ('0' as int + n) as char
  }

  function Decimal(n: nat): string {
    if n < 10 then [Digit(n)] else Decimal(n / 10) + [Digit(n % 10)]
  }

  function Zeros(n: nat): string {
    seq(n, _ => '0')
  }

  /** `{:0width}`. */
  function Padded(n: nat, width: nat): string {
    var s := Decimal(n);
    (if |s| < width then Zeros(width - |s|) else "") + s
  }

  // The text from each field on.
  function FromSecond(t: Stamp): string { Padded(t.second, 2) + "Z" }
  function FromMinute(t: Stamp): string { Padded(t.minute, 2) + ":" + FromSecond(t) }
  function FromHour(t: Stamp): string { Padded(t.hour, 2) + ":" + FromMinute(t) }
  function FromDay(t: Stamp): string { Padded(t.day, 2) + "T" + FromHour(t) }
  function FromMonth(t: Stamp): string { Padded(t.month, 2) + "-" + FromDay(t) }

  function Render(t: Stamp): string { Padded(t.year, 4) + "-" + FromMonth(t) }

  // ------------------------------------------------------------------ text order

  /** Byte order on text, which for these characters is character order. */
  predicate TextLess(a: string, b: string) {
    b != "" && (a == "" || a[0] < b[0] || (a[0] == b[0] && TextLess(a[1..], b[1..])))
  }

  lemma {:induction false} TextLessConcat(a: string, b: string, x: string, y: string)
    requires |a| == |b|
    ensures TextLess(a + x, b + y) <==> TextLess(a, b) || (a == b && TextLess(x, y))
  {
    if a == "" {
      assert a + x == x && b + y == y;
    } else {
      assert (a + x)[1..] == a[1..] + x && (b + y)[1..] == b[1..] + y;
      TextLessConcat(a[1..], b[1..], x, y);
      assert a == b <==> a[0] == b[0] && a[1..] == b[1..];
    }
  }

  /** The number of a fixed width written digit by digit. */
  function FixedWidth(n: nat, width: nat): string {
    if width == 0 then "" else FixedWidth(n / 10, width - 1) + [Digit(n % 10)]
  }

  function Power10(n: nat): nat {
    if n == 0 then 1 else 10 * Power10(n - 1)
  }

  lemma {:induction false} FixedWidthOfZero(width: nat)
    ensures FixedWidth(0, width) == Zeros(width)
  {
    if width > 0 {
      FixedWidthOfZero(width - 1);
    }
  }

  lemma {:induction false} PaddedIsFixedWidth(n: nat, width: nat)
    requires width > 0 && n < Power10(width)
    ensures Padded(n, width) == FixedWidth(n, width)
    decreases width
  {
    if n < 10 {
      FixedWidthOfZero(width - 1);
      assert n / 10 == 0 && n % 10 == n;
    } else {
      PaddedIsFixedWidth(n / 10, width - 1);
      assert Padded(n, width) == Padded(n / 10, width - 1) + [Digit(n % 10)];
    }
  }

  lemma {:induction false} FixedWidthLength(n: nat, width: nat)
    ensures |FixedWidth(n, width)| == width
  {
    if width > 0 { FixedWidthLength(n / 10, width - 1); }
  }

  lemma {:induction false} FixedWidthOrder(a: nat, b: nat, width: nat)
    requires a < Power10(width) && b < Power10(width)
    ensures TextLess(FixedWidth(a, width), FixedWidth(b, width)) <==> a < b
    ensures FixedWidth(a, width) == FixedWidth(b, width) <==> a == b
  {
    if width > 0 {
      FixedWidthOrder(a / 10, b / 10, width - 1);
      FixedWidthLength(a / 10, width - 1);
      FixedWidthLength(b / 10, width - 1);
      var p, q := FixedWidth(a / 10, width - 1), FixedWidth(b / 10, width - 1);
      var x, y := [Digit(a % 10)], [Digit(b % 10)];
      TextLessConcat(p, q, x, y);
      assert TextLess(x, y) <==> a % 10 < b % 10 by {
        assert x[1..] == "" && y[1..] == "";
      }
      assert p + x == q + y <==> p == q && x == y by {
        if p + x == q + y {
          assert (p + x)[..width - 1] == p && (q + y)[..width - 1] == q;
          assert (p + x)[width - 1] == x[0] && (q + y)[width - 1] == y[0];
        }
      }
    }
  }

  lemma PaddedOrder(a: nat, b: nat, width: nat)
    requires width > 0 && a < Power10(width) && b < Power10(width)
    ensures |Padded(a, width)| == width == |Padded(b, width)|
    ensures TextLess(Padded(a, width), Padded(b, width)) <==> a < b
    ensures Padded(a, width) == Padded(b, width) <==> a == b
  {
    PaddedIsFixedWidth(a, width);
    PaddedIsFixedWidth(b, width);
    FixedWidthLength(a, width);
    FixedWidthLength(b, width);
    FixedWidthOrder(a, b, width);
  }

  /** One field and the separator after it decide the order before anything behind them. */
  lemma FieldOrder(a: nat, b: nat, width: nat, sep: string, x: string, y: string)
    requires width > 0 && a < Power10(width) && b < Power10(width)
    ensures TextLess(Padded(a, width) + sep + x, Padded(b, width) + sep + y)
            <==> a < b || (a == b && TextLess(x, y))
    ensures |Padded(a, width) + sep + x| == width + |sep| + |x|
  {
    PaddedOrder(a, b, width);
    var p, q := Padded(a, width), Padded(b, width);
    assert p + sep + x == p + (sep + x) && q + sep + y == q + (sep + y);
    TextLessConcat(p, q, sep + x, sep + y);
    TextLessConcat(sep, sep, x, y);
    TextLessIrreflexive(sep);
  }

  lemma {:induction false} TextLessIrreflexive(s: string)
    ensures !TextLess(s, s)
  {
    if s != "" { TextLessIrreflexive(s[1..]); }
  }

  lemma SecondOrder(a: Stamp, b: Stamp)
    requires Valid(a) && Valid(b)
    ensures |FromSecond(a)| == 3
    ensures TextLess(FromSecond(a), FromSecond(b)) <==> a.second < b.second
  {
    assert Power10(2) == 100;
    FieldOrder(a.second, b.second, 2, "Z", "", "");
    assert FromSecond(a) == FromSecond(a) + "" && FromSecond(b) == FromSecond(b) + "";
  }

  lemma ClockOrder(a: Stamp, b: Stamp)
    requires Valid(a) && Valid(b)
    ensures |FromHour(a)| == 9
    ensures TextLess(FromHour(a), FromHour(b)) <==>
              a.hour * 3600 + a.minute * 60 + a.second < b.hour * 3600 + b.minute * 60 + b.second
  {
    assert Power10(2) == 100;
    SecondOrder(a, b);
    FieldOrder(a.minute, b.minute, 2, ":", FromSecond(a), FromSecond(b));
    FieldOrder(a.hour, b.hour, 2, ":", FromMinute(a), FromMinute(b));
  }

  lemma DayOrder(a: Stamp, b: Stamp)
    requires Valid(a) && Valid(b)
    ensures |FromDay(a)| == 12
    ensures TextLess(FromDay(a), FromDay(b)) <==>
              a.day < b.day || (a.day == b.day && TextLess(FromHour(a), FromHour(b)))
  {
    assert Power10(2) == 100;
    ClockOrder(a, b);
    FieldOrder(a.day, b.day, 2, "T", FromHour(a), FromHour(b));
  }

  lemma DateOrder(a: Stamp, b: Stamp)
    requires Valid(a) && Valid(b) && a.year <= 9999 && b.year <= 9999
    ensures |Render(a)| == 20
    ensures TextLess(Render(a), Render(b)) <==>
              || a.year < b.year
              || (a.year == b.year && (a.month < b.month
              || (a.month == b.month && TextLess(FromDay(a), FromDay(b)))))
  {
    DayOrder(a, b);
    assert Power10(2) == 100 && Power10(4) == 10_000;
    FieldOrder(a.month, b.month, 2, "-", FromDay(a), FromDay(b));
    FieldOrder(a.year, b.year, 4, "-", FromMonth(a), FromMonth(b));
  }

  /** Section 5.1 of RFC 3339: up to the year 9999 the texts all have one length, and they sort as
      the times do. */
  lemma TextOrderIsTimeOrder(a: Stamp, b: Stamp)
    requires Valid(a) && Valid(b) && a.year <= 9999 && b.year <= 9999
    ensures |Render(a)| == |Render(b)| == 20
    ensures TextLess(Render(a), Render(b)) <==> Seconds(a) < Seconds(b)
  {
    DateOrder(a, b);
    DateOrder(b, a);
    DayOrder(a, b);
    ClockOrder(a, b);
    SecondsOrderStamps(a, b);
  }

  predicate OrdersAgree(a: Stamp, b: Stamp)
    requires Valid(a) && Valid(b)
  {
    TextLess(Render(a), Render(b)) <==> Seconds(a) < Seconds(b)
  }

  /** And no further: 9999 is the last year up to which the texts sort as the times do. */
  lemma TextOrderHolds(last: nat)
    ensures (forall a: Stamp, b: Stamp :: Valid(a) && Valid(b) && a.year <= last && b.year <= last ==> OrdersAgree(a, b))
            <==> last <= 9999
  {
    if last <= 9999 {
      forall a: Stamp, b: Stamp | Valid(a) && Valid(b) && a.year <= last && b.year <= last ensures OrdersAgree(a, b) {
        TextOrderIsTimeOrder(a, b);
      }
    } else {
      TextOrderEndsWith9999();
      assert !OrdersAgree(Stamp(10_000, 1, 1, 0, 0, 0), Stamp(9999, 12, 31, 23, 59, 59));
    }
  }

  /** The text of the first second of the year 10000 sorts before that of the second it follows. */
  lemma TextOrderEndsWith9999()
    ensures var a, b := Stamp(9999, 12, 31, 23, 59, 59), Stamp(10_000, 1, 1, 0, 0, 0);
            Valid(a) && Valid(b) && Seconds(a) + 1 == Seconds(b) && TextLess(Render(b), Render(a))
  {
    var a, b := Stamp(9999, 12, 31, 23, 59, 59), Stamp(10_000, 1, 1, 0, 0, 0);
    MonthsFillYear(9999);
    YearStep(9999);
    assert Padded(9999, 4) == "9999" by {
      assert Decimal(99) == "99";
    }
    assert Padded(10_000, 4) == "10000" by {
      assert Decimal(100) == "100";
    }
    assert Render(a)[0] == '9' && Render(b)[0] == '1';
  }

  // ------------------------------------------------------------------ the text read

  predicate AllDigits(s: string) {
    s != "" && forall i :: 0 <= i < |s| ==> '0' <= s[i] <= '9'
  }

  /** The number that digits spell. */
  function Number(s: string): nat
    requires forall i :: 0 <= i < |s| ==> '0' <= s[i] <= '9'
  {
    if s == "" then 0 else 10 * Number(s[..|s| - 1]) + (s[|s| - 1] as int - '0' as int)
  }

  /** A number of so many digits and the character behind it, and what follows. */
  function ReadField(text: string, width: nat, sep: char): Option<(nat, string)> {
    if width < |text| && AllDigits(text[..width]) && text[width] == sep
    then Some((Number(text[..width]), text[width + 1..])) else None
  }

  /** A date and time as RFC 3339 section 5.6 has them, with as many digits to the year as it takes, but
      no fewer than four. */
  function ReadStamp(text: string): Option<Stamp> {
    var n := IndexOf(text, '-');
    var year := ReadField(text, n, '-');
    if n < 4 || year.None? then None else
      var month := ReadField(year.value.1, 2, '-');
      if month.None? then None else
        var day := ReadField(month.value.1, 2, 'T');
        if day.None? then None else
          var hour := ReadField(day.value.1, 2, ':');
          if hour.None? then None else
            var minute := ReadField(hour.value.1, 2, ':');
            if minute.None? then None else
              var second := ReadField(minute.value.1, 2, 'Z');
              if second.None? || second.value.1 != "" then None
              else Some(Stamp(year.value.0, month.value.0, day.value.0, hour.value.0, minute.value.0, second.value.0))
  }

  lemma {:induction false} DecimalSpells(n: nat)
    ensures AllDigits(Decimal(n)) && Number(Decimal(n)) == n
  {
    if n >= 10 {
      DecimalSpells(n / 10);
      var s := Decimal(n);
      assert s[..|s| - 1] == Decimal(n / 10);
    } else {
      assert Decimal(n)[..0] == "";
    }
  }

  lemma {:induction false} ZerosInFront(n: nat, s: string)
    requires forall i :: 0 <= i < |s| ==> '0' <= s[i] <= '9'
    ensures Number(Zeros(n) + s) == Number(s)
    decreases |s|, n
  {
    var t := Zeros(n) + s;
    if s != "" {
      assert t[..|t| - 1] == Zeros(n) + s[..|s| - 1];
      ZerosInFront(n, s[..|s| - 1]);
    } else if n > 0 {
      assert t[..n - 1] == Zeros(n - 1) + s;
      ZerosInFront(n - 1, s);
    }
  }

  lemma ZerosSpell(n: nat, s: string)
    requires AllDigits(s)
    ensures AllDigits(Zeros(n) + s) && Number(Zeros(n) + s) == Number(s) && |Zeros(n) + s| == n + |s|
  {
    ZerosInFront(n, s);
  }

  lemma PaddedIsZerosAndDecimal(n: nat, width: nat)
    ensures Padded(n, width) == if |Decimal(n)| < width then Zeros(width - |Decimal(n)|) + Decimal(n) else Decimal(n)
  {
  }

  lemma PaddedSpells(n: nat, width: nat)
    ensures AllDigits(Padded(n, width)) && Number(Padded(n, width)) == n && |Padded(n, width)| >= width
  {
    DecimalSpells(n);
    PaddedIsZerosAndDecimal(n, width);
    if |Decimal(n)| < width {
      ZerosSpell(width - |Decimal(n)|, Decimal(n));
    }
  }

  lemma FieldReads(n: nat, width: nat, sep: char, rest: string)
    requires |Padded(n, width)| > 0
    ensures ReadField(Padded(n, width) + [sep] + rest, |Padded(n, width)|, sep) == Some((n, rest))
  {
    PaddedSpells(n, width);
    var text, w := Padded(n, width) + [sep] + rest, |Padded(n, width)|;
    assert text[..w] == Padded(n, width) && text[w + 1..] == rest;
  }

  lemma TwoDigitsRead(n: nat, sep: char, rest: string)
    requires n < 100
    ensures ReadField(Padded(n, 2) + [sep] + rest, 2, sep) == Some((n, rest))
  {
    assert Power10(2) == 100;
    PaddedIsFixedWidth(n, 2);
    FixedWidthLength(n, 2);
    FieldReads(n, 2, sep, rest);
  }

  lemma YearReads(n: nat, rest: string)
    ensures var text := Padded(n, 4) + "-" + rest;
            IndexOf(text, '-') == |Padded(n, 4)| >= 4 && ReadField(text, IndexOf(text, '-'), '-') == Some((n, rest))
  {
    PaddedSpells(n, 4);
    IndexOfAfter(Padded(n, 4), '-', rest);
    FieldReads(n, 4, '-', rest);
  }

  /** The text of every valid time spells that time. */
  lemma TextSpellsTime(t: Stamp)
    requires Valid(t)
    ensures ReadStamp(Render(t)) == Some(t)
  {
    YearReads(t.year, FromMonth(t));
    TwoDigitsRead(t.month, '-', FromDay(t));
    TwoDigitsRead(t.day, 'T', FromHour(t));
    TwoDigitsRead(t.hour, ':', FromMinute(t));
    TwoDigitsRead(t.minute, ':', FromSecond(t));
    TwoDigitsRead(t.second, 'Z', "");
    assert Padded(t.second, 2) + ['Z'] + "" == FromSecond(t);
  }

  /** `now_rfc3339`, given what the clock says: the text reads as the time that is so many seconds after
      the epoch. */
  method NowRfc3339(secs: nat) returns (text: string)
    ensures ReadStamp(text).Some? && Valid(ReadStamp(text).value) && Seconds(ReadStamp(text).value) == secs
    ensures text == Render(ReadStamp(text).value)
  {
    var t := FromEpoch(secs);
    TextSpellsTime(t);
    text := Render(t);
  }

  // ------------------------------------------------------------------ the calendar again

  /** The day number by the formula that starts the year in March and needs no table of months. */
  function MarchDayNumber(y: int, m: int, d: int): int {
    var year := if m <= 2 then y - 1 else y;
    var month := if m <= 2 then m + 9 else m - 3;
    365 * year + year / 4 - year / 100 + year / 400 + (153 * month + 2) / 5 + d - 719_469
  }

  lemma MonthsByFormula(y: nat, m: nat)
    requires 1 <= m <= 12
    ensures DaysBeforeMonth(y, m - 1) ==
              if m <= 2 then 31 * (m - 1) else 59 + (if Leap(y) then 1 else 0) + (153 * (m - 3) + 2) / 5
  {
    if m > 3 {
      MonthsByFormula(y, m - 1);
    } else if m == 3 {
      assert DaysBeforeMonth(y, 1) == 31;
    }
  }

  /** The calendar's tables and the formula agree on every date. */
  lemma DayNumberByFormula(t: Stamp)
    requires Valid(t)
    ensures DayNumber(t) == MarchDayNumber(t.year, t.month, t.day)
  {
    MonthsByFormula(t.year, t.month);
    if t.month > 2 {
      YearStep(t.year);
    }
    assert DaysBeforeYear(1970) == 719_162;
  }

  // ------------------------------------------------------------------ plain text

  /** Digits and punctuation: nothing that trimming or line splitting could touch. */
  predicate Plain(c: char) {
    '-' <= c <= 'Z'
  }

  predicate AllPlain(s: string) {
    forall i :: 0 <= i < |s| ==> Plain(s[i])
  }

  lemma {:induction false} DecimalIsPlain(n: nat)
    ensures AllPlain(Decimal(n))
  {
    if n >= 10 { DecimalIsPlain(n / 10); }
  }

  lemma FieldIsPlain(n: nat, width: nat, sep: string, rest: string)
    requires AllPlain(sep) && AllPlain(rest)
    ensures AllPlain(Padded(n, width) + sep + rest)
  {
    DecimalIsPlain(n);
    assert AllPlain(Padded(n, width));
  }

  lemma RenderIsPlain(t: Stamp)
    ensures Render(t) != "" && AllPlain(Render(t))
  {
    FieldIsPlain(t.second, 2, "Z", "");
    assert FromSecond(t) == FromSecond(t) + "";
    FieldIsPlain(t.minute, 2, ":", FromSecond(t));
    FieldIsPlain(t.hour, 2, ":", FromMinute(t));
    FieldIsPlain(t.day, 2, "T", FromHour(t));
    FieldIsPlain(t.month, 2, "-", FromDay(t));
    FieldIsPlain(t.year, 4, "-", FromMonth(t));
  }
}
