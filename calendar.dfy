/** Proleptic Gregorian calendar arithmetic as Python's `datetime.date`
    performs it, and the `'%d.%m.%Y'` rendering of a date. */
module Calendar {
  import opened Wrappers
  import opened Text

  datatype Date = Date(year: int, month: int, day: int)

  predicate IsLeapYear(y: int) {
    y % 4 == 0 && (y % 100 != 0 || y % 400 == 0)
  }

  function DaysInMonth(y: int, m: int): (n: int)
    requires 1 <= m <= 12
    ensures 28 <= n <= 31
  {
    if m == 2 then (if IsLeapYear(y) then 29 else 28)
    else if m == 4 || m == 6 || m == 9 || m == 11 then 30
    else 31
  }

  function DaysInYear(y: int): int {
    if IsLeapYear(y) then 366 else 365
  }

  predicate ValidDate(d: Date) {
    1 <= d.month <= 12 && 1 <= d.day <= DaysInMonth(d.year, d.month)
  }

  /** The days of year `y` before the first of month `m`. */
  function DaysBeforeMonth(y: int, m: int): int
    requires 1 <= m <= 12
  {
    var common :=
      match m
      case 1 => 0    case 2 => 31   case 3 => 59   case 4 => 90
      case 5 => 120  case 6 => 151  case 7 => 181  case 8 => 212
      case 9 => 243  case 10 => 273 case 11 => 304 case _ => 334;
    common + (if m > 2 && IsLeapYear(y) then 1 else 0)
  }

  /** The days of all years before year `y`, counted from year 1. */
  function DaysBeforeYear(y: int): int {
    var p := y - 1;
    365 * p + p / 4 - p / 100 + p / 400
  }

  /** Python's `date.toordinal()`: 1 January of year 1 is day 1. */
  function DayNumber(d: Date): int
    requires ValidDate(d)
  {
    DaysBeforeYear(d.year) + DaysBeforeMonth(d.year, d.month) + d.day
  }

  /** The day before `d`: `d - timedelta(1)`. */
  function PrevDay(d: Date): (p: Date)
    requires ValidDate(d)
    ensures ValidDate(p) && p.year <= d.year
  {
    if d.day > 1 then Date(d.year, d.month, d.day - 1)
    else if d.month > 1 then Date(d.year, d.month - 1, DaysInMonth(d.year, d.month - 1))
    else Date(d.year - 1, 12, 31)
  }

  /** The day after `d`: `d + timedelta(1)`. */
  function NextDay(d: Date): (n: Date)
    requires ValidDate(d)
    ensures ValidDate(n) && n.year >= d.year
  {
    if d.day < DaysInMonth(d.year, d.month) then Date(d.year, d.month, d.day + 1)
    else if d.month < 12 then Date(d.year, d.month + 1, 1)
    else Date(d.year + 1, 1, 1)
  }

  /** `d - timedelta(k)`: `k` days before `d`. */
  function Back(d: Date, k: nat): (b: Date)
    requires ValidDate(d)
    ensures ValidDate(b) && b.year <= d.year
    decreases k
  {
    if k == 0 then d else Back(PrevDay(d), k - 1)
  }

  /** Chronological order: `a` is an earlier day than `b`. */
  predicate Before(a: Date, b: Date) {
    || a.year < b.year
    || (a.year == b.year && a.month < b.month)
    || (a.year == b.year && a.month == b.month && a.day < b.day)
  }

  lemma NextPrevDay(d: Date)
    requires ValidDate(d)
    ensures NextDay(PrevDay(d)) == d && PrevDay(NextDay(d)) == d
  {
  }

  lemma DivStep(y: int)
    ensures y / 4 - (y - 1) / 4 == (if y % 4 == 0 then 1 else 0)
    ensures y / 100 - (y - 1) / 100 == (if y % 100 == 0 then 1 else 0)
    ensures y / 400 - (y - 1) / 400 == (if y % 400 == 0 then 1 else 0)
  {
  }

  /** A multiple of 400 is a multiple of 100. */
  lemma Multiple400(y: int)
    requires y % 400 == 0
    ensures y % 100 == 0
  {
    var q := y / 400;
    assert y == 400 * q;
    assert y - 100 * (4 * q) == 0;
  }

  /** A multiple of 100 is a multiple of 4. */
  lemma Multiple100(y: int)
    requires y % 100 == 0
    ensures y % 4 == 0
  {
    var q := y / 100;
    assert y == 100 * q;
    assert y - 4 * (25 * q) == 0;
  }

  /** A year adds its own length to the count of days before it. */
  lemma DaysBeforeYearStep(y: int)
    ensures DaysBeforeYear(y + 1) == DaysBeforeYear(y) + DaysInYear(y)
  {
    var p := y - 1;
    assert DaysBeforeYear(y + 1) - DaysBeforeYear(y) == 365 + (y / 4 - p / 4) - (y / 100 - p / 100) + (y / 400 - p / 400);
    DivStep(y);
    if y % 400 == 0 {
      Multiple400(y);
    }
    if y % 100 == 0 {
      Multiple100(y);
    }
  }

  /** Stepping back one day lowers the ordinal by exactly one. */
  lemma PrevDayNumber(d: Date)
    requires ValidDate(d)
    ensures DayNumber(PrevDay(d)) == DayNumber(d) - 1
  {
    if d.day == 1 && d.month == 1 {
      DaysBeforeYearStep(d.year - 1);
    }
  }

  /** `Back` agrees with Python's `date - timedelta(k)`, which subtracts `k`
      from the ordinal. */
  lemma {:induction false} BackDayNumber(d: Date, k: nat)
    requires ValidDate(d)
    ensures DayNumber(Back(d, k)) == DayNumber(d) - k
    decreases k
  {
    if k > 0 {
      BackDayNumber(PrevDay(d), k - 1);
      PrevDayNumber(d);
    }
  }

  lemma {:induction false} DaysBeforeYearMonotone(a: int, b: int)
    requires a <= b
    ensures DaysBeforeYear(a) + (b - a) * 365 <= DaysBeforeYear(b)
    decreases b - a
  {
    if a < b {
      DaysBeforeYearMonotone(a, b - 1);
      DaysBeforeYearStep(b - 1);
    }
  }

  /** The ordinal respects chronological order. */
  lemma DayNumberOrder(a: Date, b: Date)
    requires ValidDate(a) && ValidDate(b) && Before(a, b)
    ensures DayNumber(a) < DayNumber(b)
  {
    if a.year < b.year {
      DaysBeforeYearStep(a.year);
      DaysBeforeYearMonotone(a.year + 1, b.year);
      assert DaysBeforeMonth(a.year, a.month) + a.day <= DaysInYear(a.year);
    } else if a.month < b.month {
      assert DaysBeforeMonth(a.year, a.month) + DaysInMonth(a.year, a.month) <= DaysBeforeMonth(a.year, b.month);
    }
  }

  /** Two valid dates with the same ordinal are the same date. */
  lemma DayNumberInjective(a: Date, b: Date)
    requires ValidDate(a) && ValidDate(b) && DayNumber(a) == DayNumber(b)
    ensures a == b
  {
    if Before(a, b) {
      DayNumberOrder(a, b);
    } else if Before(b, a) {
      DayNumberOrder(b, a);
    }
  }

  /** The `k`-th date back from `d` is strictly earlier than the `i`-th when `i < k`. */
  lemma BackStrictlyEarlier(d: Date, i: nat, k: nat)
    requires ValidDate(d) && i < k
    ensures Before(Back(d, k), Back(d, i))
  {
    BackDayNumber(d, i);
    BackDayNumber(d, k);
    var x, y := Back(d, k), Back(d, i);
    if !Before(x, y) {
      if x == y {
      } else {
        assert Before(y, x);
        DayNumberOrder(y, x);
      }
    }
  }

  /** Dates `'%d.%m.%Y'` renders as ten characters. */
  predicate InFormatRange(d: Date) {
    ValidDate(d) && 1000 <= d.year <= 9999
  }

  /** Character `i` of `d.strftime('%d.%m.%Y')`: the day and the month as two
      zero-padded digits, the year as four (a year outside 1000..9999 is
      outside the model and gets its last four digits), separated by dots. */
  function FormatChar(d: Date, i: nat): char
    requires ValidDate(d) && i < 10
  {
    var y := d.year % 10000;
    match i
    case 0 => DigitChar(d.day / 10)
    case 1 => DigitChar(d.day % 10)
    case 2 => '.'
    case 3 => DigitChar(d.month / 10)
    case 4 => DigitChar(d.month % 10)
    case 5 => '.'
    case 6 => DigitChar(y / 1000)
    case 7 => DigitChar(y / 100 % 10)
    case 8 => DigitChar(y / 10 % 10)
    case _ => DigitChar(y % 10)
  }

  /** `d.strftime('%d.%m.%Y')`. */
  function Format(d: Date): string
    requires ValidDate(d)
  {
    seq(10, i requires 0 <= i < 10 => FormatChar(d, i))
  }

  /** The shape `DD.MM.YYYY`: digits, with dots at positions 2 and 5. */
  predicate IsDateString(s: string) {
    && |s| == 10 && s[2] == '.' && s[5] == '.'
    && forall i | 0 <= i < 10 && i != 2 && i != 5 :: IsDigit(s[i])
  }

  lemma FormatShape(d: Date)
    requires ValidDate(d)
    ensures IsDateString(Format(d))
  {
    var s := Format(d);
    forall i | 0 <= i < 10 && i != 2 && i != 5 ensures IsDigit(s[i]) {
      assert s[i] == FormatChar(d, i);
    }
  }

  /** The number the digits `s[i..i + w]` write. */
  function Field(s: string, i: nat, w: nat): nat
    requires i + w <= |s| && forall k | i <= k < i + w :: IsDigit(s[k])
    decreases w
  {
    if w == 0 then 0 else 10 * Field(s, i, w - 1) + DigitValue(s[i + w - 1])
  }

  /** Reads a `DD.MM.YYYY` string back into a date; `None` if it is not one. */
  function ParseDate(s: string): (r: Option<Date>)
    ensures r.Some? ==> InFormatRange(r.value)
  {
    if IsDateString(s) then
      var d := Date(Field(s, 6, 4), Field(s, 3, 2), Field(s, 0, 2));
      if InFormatRange(d) then Some(d) else None
    else None
  }

  /** A date on or after 1 January of year `y` (by ordinal) lies in year `y` or later. */
  lemma YearFromDayNumber(d: Date, y: int)
    requires ValidDate(d) && DayNumber(d) > DaysBeforeYear(y)
    ensures d.year >= y
  {
    if d.year < y {
      DayNumberOrder(d, Date(y, 1, 1));
    }
  }

  lemma TwoDigitField(s: string, i: nat, n: int)
    requires 0 <= n < 100 && i + 2 <= |s|
    requires s[i] == DigitChar(n / 10) && s[i + 1] == DigitChar(n % 10)
    ensures Field(s, i, 2) == n
  {
    assert Field(s, i, 1) == n / 10;
  }

  lemma FourDigitField(s: string, i: nat, n: int)
    requires 0 <= n < 10000 && i + 4 <= |s|
    requires s[i] == DigitChar(n / 1000) && s[i + 1] == DigitChar(n / 100 % 10)
    requires s[i + 2] == DigitChar(n / 10 % 10) && s[i + 3] == DigitChar(n % 10)
    ensures Field(s, i, 4) == n
  {
    var hundreds, tens := n / 100, n / 10;
    assert hundreds / 10 == n / 1000 && tens / 10 == hundreds;
    assert Field(s, i, 1) == n / 1000;
    assert Field(s, i, 2) == 10 * (n / 1000) + hundreds % 10 == hundreds;
    assert Field(s, i, 3) == 10 * hundreds + tens % 10 == tens;
    assert Field(s, i, 4) == 10 * tens + n % 10 == n;
  }

  /** Reading a rendered date gives the date back. */
  lemma ParseFormat(d: Date)
    requires InFormatRange(d)
    ensures ParseDate(Format(d)) == Some(d)
  {
    var s := Format(d);
    FormatShape(d);
    assert d.year % 10000 == d.year;
    assert s[0] == FormatChar(d, 0) && s[1] == FormatChar(d, 1);
    TwoDigitField(s, 0, d.day);
    assert s[3] == FormatChar(d, 3) && s[4] == FormatChar(d, 4);
    TwoDigitField(s, 3, d.month);
    assert s[6] == FormatChar(d, 6) && s[7] == FormatChar(d, 7);
    assert s[8] == FormatChar(d, 8) && s[9] == FormatChar(d, 9);
    FourDigitField(s, 6, d.year);
  }

  /** Distinct dates render as distinct strings. */
  lemma FormatInjective(a: Date, b: Date)
    requires InFormatRange(a) && InFormatRange(b) && Format(a) == Format(b)
    ensures a == b
  {
    ParseFormat(a);
    ParseFormat(b);
  }
}
