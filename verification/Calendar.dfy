/**
 UTC days as civil dates, with the day-number arithmetic of ECMAScript's Date.

 A day is the full-date form of section 5.6 of RFC 3339 ('YYYY-MM-DD'), kept as its three numbers.
 `PreviousUtcDay` follows the source: parse the day at midnight UTC, set the UTC date to the
 date minus one, and format the result again.
 */
module Calendar {

  datatype Civil = Civil(year: int, month: int, day: int)

  const MS_PER_DAY := 86_400_000

  predicate IsLeap(year: int) {
    year % 4 == 0 && (year % 100 != 0 || year % 400 == 0)
  }

  function DaysInMonth(year: int, month: int): int {
    if month == 2 then (if IsLeap(year) then 29 else 28)
    else if month == 4 || month == 6 || month == 9 || month == 11 then 30
    else 31
  }

  predicate IsCivil(c: Civil) {
    1 <= c.month <= 12 && 1 <= c.day <= DaysInMonth(c.year, c.month)
  }

  /** The days a four-digit year can name. */
  predicate IsFullDate(c: Civil) {
    IsCivil(c) && 0 <= c.year <= 9999
  }

  function DaysInYear(year: int): int {
    if IsLeap(year) then 366 else 365
  }

  /** Day number of January 1st: whole years counted from 1970-01-01. */
  function DayFromYear(year: int): int
    decreases if year < 1970 then 1970 - year else year - 1970
  {
    if year == 1970 then 0
    else if year > 1970 then DayFromYear(year - 1) + DaysInYear(year - 1)
    else DayFromYear(year + 1) - DaysInYear(year)
  }

  /** Days of the year before the first of `month`. */
  function DaysBeforeMonth(year: int, month: int): int
    requires 1 <= month <= 13
    decreases month
  {
    if month == 1 then 0 else DaysBeforeMonth(year, month - 1) + DaysInMonth(year, month - 1)
  }

  /** Day number of a date; `day` may lie outside its month, as in ECMAScript's MakeDay. */
  function MakeDay(year: int, month: int, day: int): int
    requires 1 <= month <= 12
  {
    DayFromYear(year) + DaysBeforeMonth(year, month) + day - 1
  }

  function DayNumber(c: Civil): int
    requires IsCivil(c)
  {
    MakeDay(c.year, c.month, c.day)
  }

  lemma YearLength(year: int)
    ensures DaysBeforeMonth(year, 13) == DaysInYear(year)
    ensures DayFromYear(year + 1) == DayFromYear(year) + DaysBeforeMonth(year, 13)
  {
    assert DaysBeforeMonth(year, 4) == DaysInMonth(year, 2) + 62;
    assert DaysBeforeMonth(year, 7) == DaysBeforeMonth(year, 4) + 91;
    assert DaysBeforeMonth(year, 10) == DaysBeforeMonth(year, 7) + 92;
    assert DaysBeforeMonth(year, 13) == DaysBeforeMonth(year, 10) + 92;
  }

  /** ECMAScript's closed form for the day number of January 1st. */
  function EcmaDayFromYear(year: int): int {
    365 * (year - 1970) + (year - 1969) / 4 - (year - 1901) / 100 + (year - 1601) / 400
  }

  /** Counting whole years agrees with the closed form that ECMAScript's Date computes with. */
  lemma {:induction false} DayFromYearIsEcma(year: int)
    ensures DayFromYear(year) == EcmaDayFromYear(year)
    decreases if year < 1970 then 1970 - year else year - 1970
  {
    if year > 1970 {
      DayFromYearIsEcma(year - 1);
      EcmaYearStep(year - 1);
    } else if year < 1970 {
      DayFromYearIsEcma(year + 1);
      EcmaYearStep(year);
    }
  }

  lemma EcmaYearStep(year: int)
    ensures EcmaDayFromYear(year + 1) == EcmaDayFromYear(year) + DaysInYear(year)
  {
    PassesMultiples(year, 1968, 4);
    PassesMultiples(year, 1900, 100);
    PassesMultiples(year, 1600, 400);
    LeapYearsAreMultiples(year);
  }

  /** Counted from a multiple of `m`, a year passes a new one exactly if it is a multiple itself. */
  lemma PassesMultiples(year: int, base: int, m: int)
    requires m > 1 && base % m == 0
    ensures (year - base) / m - (year - 1 - base) / m == if year % m == 0 then 1 else 0
  {
    FloorStep(year - base, m);
    var q := (year - base) / m + base / m;
    assert year == q * m + (year - base) % m by {
      assert base == base / m * m;
      Regroup((year - base) / m, base / m, m);
    }
    DivisionIsUnique(year, m, q, (year - base) % m);
  }

  lemma Regroup(a: int, b: int, m: int)
    ensures (a + b) * m == a * m + b * m
  {
  }

  /** Leap years are the multiples of 4 less those of 100 and with those of 400, each counted once. */
  lemma LeapYearsAreMultiples(year: int)
    ensures (if IsLeap(year) then 1 else 0) ==
            (if year % 4 == 0 then 1 else 0) - (if year % 100 == 0 then 1 else 0) + (if year % 400 == 0 then 1 else 0)
  {
    if year % 400 == 0 {
      DivisionIsUnique(year, 100, 4 * (year / 400), 0);
    }
    if year % 100 == 0 {
      DivisionIsUnique(year, 4, 25 * (year / 100), 0);
    }
  }

  /** A new multiple of `m` is passed exactly every `m` steps. */
  lemma FloorStep(k: int, m: int)
    requires m > 1
    ensures k / m - (k - 1) / m == if k % m == 0 then 1 else 0
  {
    var q, r := k / m, k % m;
    if r == 0 {
      assert k - 1 == (q - 1) * m + (m - 1);
      DivisionIsUnique(k - 1, m, q - 1, m - 1);
    } else {
      DivisionIsUnique(k - 1, m, q, r - 1);
    }
  }

  lemma DivisionIsUnique(n: int, m: int, q: int, r: int)
    requires m > 0 && n == q * m + r && 0 <= r < m
    ensures n / m == q && n % m == r
  {
    var gap := n / m - q;
    assert gap * m == r - n % m;
    Multiples(gap, m);
  }

  lemma Multiples(gap: int, m: int)
    requires m > 0
    ensures gap > 0 ==> gap * m >= m
    ensures gap < 0 ==> gap * m <= -m
  {
  }

  /** How far day `n` is outside the year `guess`. */
  function Distance(guess: int, n: int): nat {
    if n < DayFromYear(guess) then DayFromYear(guess) - n
    else if n >= DayFromYear(guess + 1) then n - DayFromYear(guess + 1) + 1
    else 0
  }

  /** The year containing day `n`, searched from `guess`. */
  function YearFrom(guess: int, n: int): (year: int)
    ensures DayFromYear(year) <= n < DayFromYear(year + 1)
    decreases Distance(guess, n)
  {
    if n < DayFromYear(guess) then YearFrom(guess - 1, n)
    else if n >= DayFromYear(guess + 1) then YearFrom(guess + 1, n)
    else guess
  }

  /** The month containing day `k` of the year, searched from `guess`. */
  function MonthFrom(year: int, guess: int, k: int): (month: int)
    requires 1 <= guess <= 12 && DaysBeforeMonth(year, guess) <= k < DaysBeforeMonth(year, 13)
    ensures guess <= month <= 12
    ensures DaysBeforeMonth(year, month) <= k < DaysBeforeMonth(year, month + 1)
    decreases 12 - guess
  {
    if k < DaysBeforeMonth(year, guess + 1) then guess else MonthFrom(year, guess + 1, k)
  }

  /** The civil date of a day number. */
  function CivilOf(n: int): (c: Civil)
    ensures IsCivil(c) && DayNumber(c) == n
  {
    var year := YearFrom(1970, n);
    YearLength(year);
    var k := n - DayFromYear(year);
    var month := MonthFrom(year, 1, k);
    Civil(year, month, k - DaysBeforeMonth(year, month) + 1)
  }

  /** utcDay: the civil date of an instant given in epoch milliseconds. */
  function UtcDay(ms: int): Civil {
    CivilOf(ms / MS_PER_DAY)
  }

  function PreviousUtcDay(day: Civil): Civil
    requires IsCivil(day)
  {
    var d := CivilOf(DayNumber(day));
    CivilOf(MakeDay(d.year, d.month, d.day - 1))
  }

  lemma {:induction false} YearsAreOrdered(y: int, z: int)
    requires y < z
    ensures DayFromYear(y + 1) <= DayFromYear(z)
    decreases z - y
  {
    if y + 1 < z {
      YearsAreOrdered(y, z - 1);
    }
  }

  lemma {:induction false} MonthsAreOrdered(year: int, m: int, k: int)
    requires 1 <= m < k <= 13
    ensures DaysBeforeMonth(year, m + 1) <= DaysBeforeMonth(year, k)
    decreases k - m
  {
    if m + 1 < k {
      MonthsAreOrdered(year, m, k - 1);
    }
  }

  /** A date's number lies inside its own year. */
  lemma DayNumberInYear(c: Civil)
    requires IsCivil(c)
    ensures DayFromYear(c.year) <= DayNumber(c) < DayFromYear(c.year + 1)
  {
    YearLength(c.year);
    if 1 < c.month { MonthsAreOrdered(c.year, 1, c.month); }
    if c.month < 12 { MonthsAreOrdered(c.year, c.month, 13); }
  }

  /** Later dates have larger numbers: the day number orders days as the calendar does. */
  lemma CalendarOrder(a: Civil, b: Civil)
    requires IsCivil(a) && IsCivil(b)
    requires a.year < b.year || (a.year == b.year && (a.month < b.month || (a.month == b.month && a.day < b.day)))
    ensures DayNumber(a) < DayNumber(b)
  {
    if a.year < b.year {
      DayNumberInYear(a);
      DayNumberInYear(b);
      YearsAreOrdered(a.year, b.year);
    } else if a.month < b.month {
      MonthsAreOrdered(a.year, a.month, b.month);
    }
  }

  /** Formatting undoes parsing: a day number names exactly one civil date. */
  lemma DayNumberRoundTrip(c: Civil)
    requires IsCivil(c)
    ensures CivilOf(DayNumber(c)) == c
  {
    var d := CivilOf(DayNumber(c));
    if d != c {
      if d.year < c.year || (d.year == c.year && (d.month < c.month || (d.month == c.month && d.day < c.day))) {
        CalendarOrder(d, c);
      } else {
        CalendarOrder(c, d);
      }
    }
  }

  /** The day before, by the rules of the Gregorian calendar. */
  function CalendarPredecessor(c: Civil): Civil
    requires IsCivil(c)
  {
    if c.day > 1 then Civil(c.year, c.month, c.day - 1)
    else if c.month > 1 then Civil(c.year, c.month - 1, DaysInMonth(c.year, c.month - 1))
    else Civil(c.year - 1, 12, 31)
  }

  lemma PredecessorNumber(c: Civil)
    requires IsCivil(c)
    ensures IsCivil(CalendarPredecessor(c)) && DayNumber(CalendarPredecessor(c)) == DayNumber(c) - 1
  {
    if c.day == 1 {
      if c.month > 1 {
        assert DaysBeforeMonth(c.year, c.month) ==
               DaysBeforeMonth(c.year, c.month - 1) + DaysInMonth(c.year, c.month - 1);
      } else {
        YearLength(c.year - 1);
        assert DaysBeforeMonth(c.year - 1, 13) == DaysBeforeMonth(c.year - 1, 12) + 31;
      }
    }
  }

  /** previousUtcDay is the calendar predecessor, one day number earlier, in every year. */
  lemma PreviousUtcDayIsPredecessor(c: Civil)
    requires IsCivil(c)
    ensures PreviousUtcDay(c) == CalendarPredecessor(c)
    ensures IsCivil(PreviousUtcDay(c)) && DayNumber(PreviousUtcDay(c)) == DayNumber(c) - 1
    ensures IsFullDate(c) && c != Civil(0, 1, 1) ==> IsFullDate(PreviousUtcDay(c))
  {
    var p := CalendarPredecessor(c);
    PredecessorNumber(c);
    DayNumberRoundTrip(c);
    DayNumberRoundTrip(p);
  }
}
