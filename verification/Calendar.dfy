/**
 UTC days and their names. Days are numbered from 1 January of year 0 in the proleptic
 Gregorian calendar; a day's date is found by counting on from there.
 */
module Calendar {
  import opened Decimal

  datatype Date = Date(year: nat, month: nat, day: nat)

  predicate Leap(year: nat) {
    year % 4 == 0 && (year % 100 != 0 || year % 400 == 0)
  }

  function MonthLength(year: nat, month: nat): nat {
    if month == 2 then (if Leap(year) then 29 else 28)
    else if month == 4 || month == 6 || month == 9 || month == 11 then 30
    else 31
  }

  predicate Valid(d: Date) {
    1 <= d.month <= 12 && 1 <= d.day <= MonthLength(d.year, d.month)
  }

  function NextDay(d: Date): Date {
    if d.day < MonthLength(d.year, d.month) then Date(d.year, d.month, d.day + 1)
    else if d.month < 12 then Date(d.year, d.month + 1, 1)
    else Date(d.year + 1, 1, 1)
  }

  function DateOf(n: nat): (d: Date)
    ensures Valid(d)
  {
    if n == 0 then Date(0, 1, 1) else NextDay(DateOf(n - 1))
  }

  predicate Earlier(a: Date, b: Date) {
    a.year < b.year || (a.year == b.year && (a.month < b.month || (a.month == b.month && a.day < b.day)))
  }

  lemma {:induction false} DatesInOrder(m: nat, n: nat)
    requires m < n
    ensures Earlier(DateOf(m), DateOf(n))
  {
    assert Earlier(DateOf(n - 1), NextDay(DateOf(n - 1)));
    if m < n - 1 {
      DatesInOrder(m, n - 1);
    }
  }

  // ---- in closed form ----

  /** How many multiples of `d` there are below `y`, 0 included. */
  function Multiples(y: nat, d: nat): nat
    requires d > 0
  {
    if y == 0 then 0 else Multiples(y - 1, d) + if (y - 1) % d == 0 then 1 else 0
  }

  /** The days before year `y`. */
  function YearStart(y: nat): int {
    365 * y + Multiples(y, 4) - Multiples(y, 100) + Multiples(y, 400)
  }

  /** The days before month `m` in a year of 365 days. */
  function MonthStart(m: nat): nat
    requires 1 <= m <= 12
  {
    match m
    case 1 => 0
    case 2 => 31
    case 3 => 59
    case 4 => 90
    case 5 => 120
    case 6 => 151
    case 7 => 181
    case 8 => 212
    case 9 => 243
    case 10 => 273
    case 11 => 304
    case _ => 334
  }

  lemma {:induction false} WithinMonth(n: nat, k: nat)
    requires DateOf(n).day == 1 && k < MonthLength(DateOf(n).year, DateOf(n).month)
    ensures DateOf(n + k) == Date(DateOf(n).year, DateOf(n).month, 1 + k)
  {
    if k > 0 {
      WithinMonth(n, k - 1);
    }
  }

  /** From the first of a month to the first of the next. */
  lemma NextMonth(n: nat, y: nat, m: nat)
    requires 1 <= m <= 12 && DateOf(n) == Date(y, m, 1)
    ensures DateOf(n + MonthLength(y, m)) == if m < 12 then Date(y, m + 1, 1) else Date(y + 1, 1, 1)
  {
    WithinMonth(n, MonthLength(y, m) - 1);
  }

  function LeapDay(y: nat): nat {
    if Leap(y) then 1 else 0
  }

  function Shift(m: nat, leapDay: nat): nat {
    if m > 2 then leapDay else 0
  }

  lemma {:induction false} MonthsOf(n: nat, y: nat, m: nat)
    requires 1 <= m <= 12 && DateOf(n) == Date(y, 1, 1)
    ensures DateOf(n + MonthStart(m) + Shift(m, LeapDay(y))) == Date(y, m, 1)
  {
    if m > 1 {
      MonthsOf(n, y, m - 1);
      NextMonth(n + MonthStart(m - 1) + Shift(m - 1, LeapDay(y)), y, m - 1);
    }
  }

  lemma NextYear(n: nat, y: nat)
    requires DateOf(n) == Date(y, 1, 1)
    ensures DateOf(n + 365 + LeapDay(y)) == Date(y + 1, 1, 1)
  {
    MonthsOf(n, y, 12);
    NextMonth(n + 334 + LeapDay(y), y, 12);
  }

  lemma {:induction false} MultiplesOf4(y: nat)
    ensures Multiples(y, 4) == (y + 3) / 4
  {
    if y > 0 {
      MultiplesOf4(y - 1);
    }
  }

  lemma {:induction false} MultiplesOf100(y: nat)
    ensures Multiples(y, 100) == (y + 99) / 100
  {
    if y > 0 {
      MultiplesOf100(y - 1);
    }
  }

  lemma {:induction false} MultiplesOf400(y: nat)
    ensures Multiples(y, 400) == (y + 399) / 400
  {
    if y > 0 {
      MultiplesOf400(y - 1);
    }
  }

  lemma LeapExactly(y: nat)
    ensures YearStart(y + 1) == YearStart(y) + 365 + LeapDay(y)
  {
    OneMore(y, 4);
    OneMore(y, 100);
    OneMore(y, 400);
    MultipleOfFour(y);
  }

  lemma OneMore(y: nat, d: nat)
    requires d > 0
    ensures Multiples(y + 1, d) == Multiples(y, d) + if y % d == 0 then 1 else 0
  {
  }

  lemma MultipleOfFour(y: nat)
    ensures y % 400 == 0 ==> y % 100 == 0
    ensures y % 100 == 0 ==> y % 4 == 0
  {
    Hundreds(y / 400 * 4);
    Fours(y / 100 * 25);
  }

  lemma Hundreds(k: nat)
    ensures 100 * k % 100 == 0
  {
  }

  lemma Fours(k: nat)
    ensures 4 * k % 4 == 0
  {
  }

  lemma {:induction false} YearBeginsAt(y: nat)
    ensures YearStart(y) >= 0 && DateOf(YearStart(y)) == Date(y, 1, 1)
  {
    if y > 0 {
      YearBeginsAt(y - 1);
      LeapExactly(y - 1);
      NextYear(YearStart(y - 1), y - 1);
    }
  }

  lemma YearStartClosed(y: nat)
    ensures YearStart(y) == 365 * y + (y + 3) / 4 - (y + 99) / 100 + (y + 399) / 400
  {
    MultiplesOf4(y);
    MultiplesOf100(y);
    MultiplesOf400(y);
  }

  /** Every year begins 365 days after the last, and one more after each leap year before it. */
  lemma YearBegins(y: nat, n: int)
    requires n == 365 * y + (y + 3) / 4 - (y + 99) / 100 + (y + 399) / 400
    ensures n >= 0 && DateOf(n) == Date(y, 1, 1)
  {
    YearStartClosed(y);
    BeginsAt(y, n);
  }

  lemma BeginsAt(y: nat, n: int)
    requires n == YearStart(y)
    ensures n >= 0 && DateOf(n) == Date(y, 1, 1)
  {
    YearBeginsAt(y);
  }

  /** A year has 366 days, and its months from March on begin a day later, or 365. */
  lemma MonthBegins(y: nat, m: nat)
    requires 1 <= m <= 12
    ensures var n, length := YearStart(y), YearStart(y + 1) - YearStart(y);
            && n >= 0 && (length == 365 || length == 366)
            && DateOf(n + MonthStart(m) + Shift(m, length - 365)) == Date(y, m, 1)
  {
    YearBeginsAt(y);
    LeapExactly(y);
    MonthsOf(YearStart(y), y, m);
  }

  /** The day number of every date, without counting on from day 0. */
  lemma DateExactly(d: Date)
    requires Valid(d)
    ensures var n, length := YearStart(d.year), YearStart(d.year + 1) - YearStart(d.year);
            && n >= 0 && (length == 365 || length == 366)
            && DateOf(n + MonthStart(d.month) + Shift(d.month, length - 365) + d.day - 1) == d
  {
    MonthBegins(d.year, d.month);
    var length := YearStart(d.year + 1) - YearStart(d.year);
    WithinMonth(YearStart(d.year) + MonthStart(d.month) + Shift(d.month, length - 365), d.day - 1);
  }

  // ---- names ----

  function Two(n: nat): string
    requires n < 100
  {
    [DigitChar(n / 10), DigitChar(n % 10)]
  }

  /** The layout "2006-01-02". */
  function Format(d: Date): (s: string)
    requires Valid(d) && d.year <= 9999
    ensures |s| == 10
  {
    Two(d.year / 100) + (Two(d.year % 100) + ("-" + (Two(d.month) + ("-" + Two(d.day)))))
  }

  /** Go's `<` on strings. */
  predicate StringLess(a: string, b: string) {
    b != "" && (a == "" || a[0] < b[0] || (a[0] == b[0] && StringLess(a[1..], b[1..])))
  }

  lemma {:induction false} LessConcat(a: string, x: string, b: string, y: string)
    requires |a| == |b|
    ensures StringLess(a + x, b + y) <==> StringLess(a, b) || (a == b && StringLess(x, y))
  {
    if a == "" {
      assert a + x == x && b + y == y;
    } else {
      assert (a + x)[1..] == a[1..] + x && (b + y)[1..] == b[1..] + y;
      LessConcat(a[1..], x, b[1..], y);
      assert a == b <==> a[0] == b[0] && a[1..] == b[1..] by {
        assert a == [a[0]] + a[1..] && b == [b[0]] + b[1..];
      }
    }
  }

  lemma TwoOrder(m: nat, n: nat)
    requires m < 100 && n < 100
    ensures StringLess(Two(m), Two(n)) <==> m < n
    ensures Two(m) == Two(n) <==> m == n
  {
    assert Two(m)[0] == DigitChar(m / 10) && Two(n)[0] == DigitChar(n / 10);
    assert Two(m)[1] == DigitChar(m % 10) && Two(n)[1] == DigitChar(n % 10);
    assert Two(m)[1..] == [DigitChar(m % 10)] && Two(n)[1..] == [DigitChar(n % 10)];
    assert StringLess(Two(m)[1..], Two(n)[1..]) <==> m % 10 < n % 10;
  }

  /** On zero-padded dates, the order of the texts is the order of the dates. */
  lemma FormatOrder(a: Date, b: Date)
    requires Valid(a) && Valid(b) && a.year <= 9999 && b.year <= 9999
    ensures StringLess(Format(a), Format(b)) <==> Earlier(a, b)
  {
    var a1, b1 := Two(a.month) + ("-" + Two(a.day)), Two(b.month) + ("-" + Two(b.day));
    var a2, b2 := Two(a.year % 100) + ("-" + a1), Two(b.year % 100) + ("-" + b1);
    TwoOrder(a.year / 100, b.year / 100);
    TwoOrder(a.year % 100, b.year % 100);
    TwoOrder(a.month, b.month);
    TwoOrder(a.day, b.day);
    LessConcat("-", Two(a.day), "-", Two(b.day));
    LessConcat(Two(a.month), "-" + Two(a.day), Two(b.month), "-" + Two(b.day));
    LessConcat("-", a1, "-", b1);
    LessConcat(Two(a.year % 100), "-" + a1, Two(b.year % 100), "-" + b1);
    LessConcat(Two(a.year / 100), a2, Two(b.year / 100), b2);
  }

  /** Days whose year has four digits. */
  predicate Named(n: nat) {
    DateOf(n).year <= 9999
  }

  function DayName(n: nat): (s: string)
    requires Named(n)
    ensures |s| == 10
  {
    Format(DateOf(n))
  }

  /** Comparing day names compares days. */
  lemma DayNameOrder(m: nat, n: nat)
    requires Named(m) && Named(n)
    ensures StringLess(DayName(m), DayName(n)) <==> m < n
    ensures DayName(m) == DayName(n) ==> m == n
  {
    if m < n {
      DatesInOrder(m, n);
    } else if n < m {
      DatesInOrder(n, m);
    }
    FormatOrder(DateOf(m), DateOf(n));
    FormatOrder(DateOf(n), DateOf(m));
  }

  /** The name spells year, month and day in four, two and two decimal digits. */
  lemma FormatReads(d: Date)
    requires Valid(d) && d.year <= 9999
    ensures var s := Format(d);
            && Digits(s[..4]) && Digits(s[5..7]) && Digits(s[8..]) && s[4] == '-' && s[7] == '-'
            && Value(s[..4]) == d.year && Value(s[5..7]) == d.month && Value(s[8..]) == d.day
  {
    var s := Format(d);
    assert s[..4] == Two(d.year / 100) + Two(d.year % 100);
    assert s[5..7] == Two(d.month) && s[8..] == Two(d.day);
    TwoReads(d.month);
    TwoReads(d.day);
    FourRead(d.year / 100, d.year % 100);
  }

  lemma TwoReads(n: nat)
    requires n < 100
    ensures Digits(Two(n)) && Value(Two(n)) == n
  {
    var s := Two(n);
    assert s[..1] == [DigitChar(n / 10)] && s[..1][..0] == "";
    assert Value(s[..1]) == n / 10;
  }

  lemma FourRead(m: nat, n: nat)
    requires m < 100 && n < 100
    ensures Digits(Two(m) + Two(n)) && Value(Two(m) + Two(n)) == 100 * m + n
  {
    var s := Two(m) + Two(n);
    TwoReads(m);
    assert s[..3] == Two(m) + [DigitChar(n / 10)] && s[..3][..2] == Two(m);
    assert Value(s[..3]) == 10 * m + n / 10;
  }

  /** For instance, 5 March 2024 is day 739315. */
  lemma March2024(n: nat)
    requires n == 739315
    ensures DateOf(n) == Date(2024, 3, 5) && DayName(n) == "2024-03-05"
  {
    MarchDate(n);
    MarchName(DateOf(n));
  }

  lemma MarchName(d: Date)
    requires d == Date(2024, 3, 5)
    ensures Format(d) == "2024-03-05"
  {
    assert Two(d.year / 100) == "20" && Two(d.year % 100) == "24" && Two(d.month) == "03" && Two(d.day) == "05";
    assert "03" + ("-" + "05") == "03-05";
    assert "24" + ("-" + "03-05") == "24-03-05";
    assert "20" + "24-03-05" == "2024-03-05";
  }

  lemma MarchDate(n: nat)
    requires n == 739315
    ensures DateOf(n) == Date(2024, 3, 5)
  {
    var y: nat :| y == 2024;
    YearBegins(y, n - 64);
    MonthsOf(n - 64, y, 3);
    WithinMonth(n - 4, 4);
  }
}
