/**
 * The dates of the vesting sheet: calendar dates, the `m/d/yy` texts the scripts read with
 * `split('/')` and `parseInt`, the carrying of `new Date(year, monthIndex, day)` into the
 * neighbouring months, the day-by-day comparison with today and the `YYYY-MM` month keys.
 */
module Dates {
  import opened JsText
  import opened JsNumbers
  import opened JsParse

  /** A calendar date in the script's local time zone; `month` counts from 1. */
  datatype Date = Date(year: int, month: int, day: int)

  predicate Leap(y: int)
  {
    (y % 4 == 0 && y % 100 != 0) || y % 400 == 0
  }

  /** The number of days of month m of year y. */
  function DaysIn(y: int, m: int): (n: int)
    ensures 28 <= n <= 31
  {
    if m == 2 then (if Leap(y) then 29 else 28)
    else if m == 4 || m == 6 || m == 9 || m == 11 then 30
    else 31
  }

  predicate Valid(d: Date)
  {
    1 <= d.month <= 12 && 1 <= d.day <= DaysIn(d.year, d.month)
  }

  /** A date that exists on the calendar, as every `Date` a sheet cell holds does. */
  type CalendarDate = d: Date | Valid(d) witness Date(2000, 1, 1)

  /** Day d of month m of year y, where a day before the first or after the last carries into the neighbouring months. */
  function Carry(y: int, m: int, d: int): CalendarDate
    requires 1 <= m <= 12
    decreases if d < 1 then 1 - d else 0, d
  {
    if d < 1 then
      var py := if m == 1 then y - 1 else y;
      var pm := if m == 1 then 12 else m - 1;
      Carry(py, pm, d + DaysIn(py, pm))
    else if d > DaysIn(y, m) then
      var ny := if m == 12 then y + 1 else y;
      var nm := if m == 12 then 1 else m + 1;
      Carry(ny, nm, d - DaysIn(y, m))
    else Date(y, m, d)
  }

  /**
   * `new Date(year, monthIndex, day)`: a year from 0 to 99 means 1900 to 1999, a month
   * index outside 0..11 carries into the years and a day outside the month into the months.
   */
  function MakeDate(year: int, monthIndex: int, day: int): CalendarDate
  {
    var y := if 0 <= year <= 99 then 1900 + year else year;
    Carry(y + monthIndex / 12, monthIndex % 12 + 1, day)
  }

  /** A date that exists is built as itself. */
  lemma MakeDateExisting(d: CalendarDate)
    requires !(0 <= d.year <= 99)
    ensures MakeDate(d.year, d.month - 1, d.day) == d
  {
    assert (d.month - 1) / 12 == 0 && (d.month - 1) % 12 == d.month - 1;
  }

  /** A day past the end of a month is a day of the next month. */
  lemma CarryNextMonth(y: int, m: int, d: int)
    requires 1 <= m < 12 && DaysIn(y, m) < d <= DaysIn(y, m) + DaysIn(y, m + 1)
    ensures Carry(y, m, d) == Date(y, m + 1, d - DaysIn(y, m))
  {
  }

  /** Day 0 is the last day of the month before. */
  lemma CarryDayZero(y: int, m: int)
    requires 1 < m <= 12
    ensures Carry(y, m, 0) == Date(y, m - 1, DaysIn(y, m - 1))
  {
  }

  /**
   * The date the text `m/d/yy` stands for: `dateStr.split('/')` must give three parts, each
   * read by `parseInt`, and a year below 100 has 2000 added. None when the text does not have
   * three parts or a part is not a number (`rowDate` stays undefined or is an invalid date).
   */
  function ParseSlashDate(s: string): Option<CalendarDate>
  {
    DateOfSplit(Split(s, '/'))
  }

  /** The date of the parts of `dateStr.split('/')`, when there are three. */
  function DateOfSplit(parts: seq<string>): Option<CalendarDate>
  {
    if |parts| != 3 then None else DateOfParts(ParseInt(parts[0]), ParseInt(parts[1]), ParseInt(parts[2]))
  }

  /** `new Date(year, month - 1, day)` after `if (year < 100) year += 2000`, when all three parts are numbers. */
  function DateOfParts(month: Option<int>, day: Option<int>, year: Option<int>): Option<CalendarDate>
  {
    if month.None? || day.None? || year.None? then None
    else
      var y := if year.value < 100 then year.value + 2000 else year.value;
      Some(MakeDate(y, month.value - 1, day.value))
  }

  /** Splitting at the first separator. */
  lemma SplitFirst(a: string, rest: string, sep: char)
    requires sep !in a
    ensures Split(a + [sep] + rest, sep) == [a] + Split(rest, sep)
  {
    var s := a + [sep] + rest;
    assert s[|a|] == sep;
    assert s[..|a|] == a;
    assert s[|a| + 1..] == rest;
  }

  /** Three texts without '/' joined by '/' split back into the three. */
  lemma SplitThree(a: string, b: string, c: string)
    requires '/' !in a && '/' !in b && '/' !in c
    ensures Split(a + "/" + b + "/" + c, '/') == [a, b, c]
  {
    assert a + "/" + b + "/" + c == a + ['/'] + (b + ['/'] + c);
    SplitFirst(a, b + ['/'] + c, '/');
    SplitFirst(b, c, '/');
  }

  /** A numeral has no '/'. */
  lemma NoSlash(n: nat)
    ensures '/' !in NatToString(n)
  {
    var s := NatToString(n);
    assert forall k :: 0 <= k < |s| ==> IsDigit(s[k]);
  }

  /** A text of three parts that read as numbers stands for the date they make. */
  lemma ParseParts(s: string, a: string, b: string, c: string, m: int, d: int, y: int)
    requires Split(s, '/') == [a, b, c]
    requires ParseInt(a) == Some(m) && ParseInt(b) == Some(d) && ParseInt(c) == Some(y)
    ensures ParseSlashDate(s) == Some(MakeDate(if y < 100 then y + 2000 else y, m - 1, d))
  {
    assert DateOfSplit([a, b, c]) == DateOfParts(Some(m), Some(d), Some(y));
  }

  /** Three numbers read back from the text `m/d/y`. */
  lemma ParseNumerals(m: nat, d: nat, y: nat)
    ensures var s := NatToString(m) + "/" + NatToString(d) + "/" + NatToString(y);
      ParseSlashDate(s) == Some(MakeDate(if y < 100 then y + 2000 else y, m - 1, d))
  {
    var a, b, c := NatToString(m), NatToString(d), NatToString(y);
    NoSlash(m);
    NoSlash(d);
    NoSlash(y);
    SplitThree(a, b, c);
    ParseIntNat(m);
    ParseIntNat(d);
    ParseIntNat(y);
    ParseParts(a + "/" + b + "/" + c, a, b, c, m, d, y);
  }

  /** The text of month, day and year with a two-digit year reads back as the date. */
  lemma ParseWrittenDate(d: CalendarDate)
    requires 2000 <= d.year <= 2099
    ensures ParseSlashDate(NatToString(d.month) + "/" + NatToString(d.day) + "/" + NatToString(d.year - 2000))
         == Some(d)
  {
    var y := d.year - 2000;
    ParseNumerals(d.month, d.day, y);
    assert (if y < 100 then y + 2000 else y) == d.year;
    MakeDateExisting(d);
  }

  /** The text of month, day and a year of three or more digits reads back as the date. */
  lemma ParseWrittenFullDate(d: CalendarDate)
    requires 100 <= d.year
    ensures ParseSlashDate(NatToString(d.month) + "/" + NatToString(d.day) + "/" + NatToString(d.year)) == Some(d)
  {
    ParseNumerals(d.month, d.day, d.year);
    assert (if d.year < 100 then d.year + 2000 else d.year) == d.year;
    MakeDateExisting(d);
  }

  /** The date column of a vesting row: empty, a date value, or any other value as its text. */
  datatype DateCell = Blank | Typed(date: CalendarDate) | Written(text: string)

  /**
   * The date a vesting row is filed under: none for an empty cell (`if (!dateValue) continue`),
   * the value itself for a `Date`, and otherwise the `m/d/yy` reading of its text.
   */
  function ReadDate(c: DateCell): Option<CalendarDate>
  {
    match c
    case Blank => None
    case Typed(d) => Some(d)
    case Written(s) => if s == [] then None else ParseSlashDate(s)
  }

  /** `rowDate >= today` with `today` set to the start of its day: the two compare day by day. */
  predicate OnOrAfter(d: Date, today: Date)
  {
    d.year > today.year
    || (d.year == today.year && (d.month > today.month || (d.month == today.month && d.day >= today.day)))
  }

  /** `rowDate.getFullYear() + '-' + String(rowDate.getMonth() + 1).padStart(2, '0')` */
  function MonthKey(d: CalendarDate): string
  {
    IntToString(d.year) + "-" + PadZeros(NatToString(d.month), 2)
  }

  /** The two digits of a month from 1 to 12. */
  lemma MonthDigits(m: int)
    requires 1 <= m <= 12
    ensures var t := PadZeros(NatToString(m), 2);
      |t| == 2 && AllDigits(t) && DigitsValue(t) == m
  {
    var ds := NatToString(m);
    NatToStringTwo(m);
    var t := PadZeros(ds, 2);
    if |ds| == 1 {
      assert t == ['0'] + ds;
      DigitsValueAppend(['0'], ds);
      assert DigitsValue(['0']) == 0 by { assert ['0'][..0] == []; }
    } else {
      assert t == ds;
    }
  }

  /** A month key of a four-digit year is the year, a '-' and the two digits of the month. */
  lemma MonthKeyShape(d: CalendarDate)
    requires 1000 <= d.year <= 9999
    ensures var k := MonthKey(d);
      |k| == 7 && k[4] == '-' && k[..4] == NatToString(d.year) && AllDigits(k[5..])
      && DigitsValue(k[5..]) == d.month
  {
    var y := NatToString(d.year);
    NatToStringShort(d.year);
    assert |y| == 4 by {
      if |y| > 4 {
        NatToStringStep(d.year);
        assert DigitsValue(y) >= 10000 by { LeadingDigit(y); }
      }
    }
    MonthDigits(d.month);
    var k := MonthKey(d);
    assert k == y + "-" + PadZeros(NatToString(d.month), 2);
    assert k[5..] == PadZeros(NatToString(d.month), 2);
  }

  /** A numeral of five or more digits without a leading zero is at least 10000. */
  lemma LeadingDigit(s: string)
    requires |s| >= 5 && AllDigits(s) && s[0] != '0'
    ensures DigitsValue(s) >= 10000
  {
    DigitsValueFront(s);
    DigitsValueBound(s[1..]);
    Pow10Grows(4, |s| - 1);
  }

  lemma {:induction false} Pow10Grows(a: nat, b: nat)
    requires a <= b
    ensures Pow10(a) <= Pow10(b)
    decreases b
  {
    if a < b { Pow10Grows(a, b - 1); }
  }

  /** The value of a numeral read from its first digit. */
  lemma {:induction false} DigitsValueFront(s: string)
    requires |s| >= 1 && AllDigits(s)
    ensures DigitsValue(s) == DigitVal(s[0]) * Pow10(|s| - 1) + DigitsValue(s[1..])
  {
    assert s == [s[0]] + s[1..];
    DigitsValueAppend([s[0]], s[1..]);
    assert DigitsValue([s[0]]) == DigitVal(s[0]) by { assert [s[0]][..0] == []; }
  }

  /** Numerals of one length compare as text exactly as they compare as numbers. */
  lemma {:induction false} DigitsOrder(a: string, b: string)
    requires |a| == |b| && AllDigits(a) && AllDigits(b)
    ensures StrLe(a, b) <==> DigitsValue(a) <= DigitsValue(b)
  {
    if a != [] {
      DigitsValueFront(a);
      DigitsValueFront(b);
      DigitsValueBound(a[1..]);
      DigitsValueBound(b[1..]);
      var p := Pow10(|a| - 1);
      if a[0] == b[0] {
        DigitsOrder(a[1..], b[1..]);
      } else if a[0] < b[0] {
        FrontDigitWins(DigitVal(a[0]), DigitVal(b[0]), DigitsValue(a[1..]), DigitsValue(b[1..]), p);
      } else {
        FrontDigitWins(DigitVal(b[0]), DigitVal(a[0]), DigitsValue(b[1..]), DigitsValue(a[1..]), p);
      }
    } else {
      assert b == [];
    }
  }

  /** A smaller leading digit makes a smaller number, whatever follows it. */
  lemma FrontDigitWins(da: nat, db: nat, ra: nat, rb: nat, p: nat)
    requires da < db && ra < p && rb < p
    ensures da * p + ra < db * p + rb
  {
    assert (da + 1) * p <= db * p;
  }

  /** Texts that agree on a common prefix compare as their remainders. */
  lemma {:induction false} StrLeCommon(p: string, a: string, b: string)
    ensures StrLe(p + a, p + b) <==> StrLe(a, b)
  {
    if p != [] {
      assert (p + a)[1..] == p[1..] + a;
      assert (p + b)[1..] == p[1..] + b;
      StrLeCommon(p[1..], a, b);
    } else {
      assert p + a == a && p + b == b;
    }
  }

  /** Texts whose first parts have one length and differ compare as those parts. */
  lemma {:induction false} StrLeDiffer(p: string, q: string, a: string, b: string)
    requires |p| == |q| && p != q
    ensures StrLe(p + a, q + b) <==> StrLe(p, q)
  {
    if p[0] == q[0] {
      assert p[1..] != q[1..] by { assert p == [p[0]] + p[1..] && q == [q[0]] + q[1..]; }
      assert (p + a)[1..] == p[1..] + a;
      assert (q + b)[1..] == q[1..] + b;
      StrLeDiffer(p[1..], q[1..], a, b);
    }
  }

  /**
   * For four-digit years the month keys sort as text in calendar order, which is the order
   * `allDates.sort()` puts them in.
   */
  lemma MonthKeyOrder(a: CalendarDate, b: CalendarDate)
    requires 1000 <= a.year <= 9999 && 1000 <= b.year <= 9999
    ensures StrLe(MonthKey(a), MonthKey(b)) <==> a.year < b.year || (a.year == b.year && a.month <= b.month)
  {
    MonthKeyShape(a);
    MonthKeyShape(b);
    var ka, kb := MonthKey(a), MonthKey(b);
    var ya, yb := ka[..5], kb[..5];
    assert ka == ya + ka[5..] && kb == yb + kb[5..];
    assert ya == NatToString(a.year) + "-" && yb == NatToString(b.year) + "-";
    DigitsOrder(NatToString(a.year), NatToString(b.year));
    DigitsOrder(NatToString(b.year), NatToString(a.year));
    if a.year == b.year {
      assert ya == yb;
      StrLeCommon(ya, ka[5..], kb[5..]);
      DigitsOrder(ka[5..], kb[5..]);
    } else {
      assert NatToString(a.year) != NatToString(b.year);
      assert ya != yb by { assert ya[..4] == NatToString(a.year) && yb[..4] == NatToString(b.year); }
      StrLeDiffer(ya, yb, ka[5..], kb[5..]);
      StrLeDiffer(NatToString(a.year), NatToString(b.year), "-", "-");
    }
  }

  /** For four-digit years two dates share a month key exactly when they share year and month. */
  lemma MonthKeySame(a: CalendarDate, b: CalendarDate)
    requires 1000 <= a.year <= 9999 && 1000 <= b.year <= 9999
    ensures MonthKey(a) == MonthKey(b) <==> a.year == b.year && a.month == b.month
  {
    MonthKeyOrder(a, b);
    MonthKeyOrder(b, a);
    if StrLe(MonthKey(a), MonthKey(b)) && StrLe(MonthKey(b), MonthKey(a)) {
      StrLeAntisym(MonthKey(a), MonthKey(b));
    }
  }
}
