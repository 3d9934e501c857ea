/**
 * The proleptic Gregorian calendar, with days counted from the Unix epoch
 * (day 0 is 1970-01-01). `CivilFromDays` is the UTC calendar day that
 * `datetime.utcfromtimestamp(...).date()` produces for a day number, and
 * `DaysFromCivil` is the day number `pd.to_datetime` gives a date back.
 *
 * Internally years are counted from March 1, so that the leap day is the
 * last day of its year: a 400-year era has 146097 days, its first three
 * centuries 36524 days each, a four-year group 1461 days.
 */
module Calendar {

  datatype Date = Date(year: int, month: int, day: int)

  predicate IsLeapYear(y: int) {
    y % 4 == 0 && (y % 100 != 0 || y % 400 == 0)
  }

  function DaysInMonth(y: int, m: int): int {
    if m == 2 then (if IsLeapYear(y) then 29 else 28)
    else if m == 4 || m == 6 || m == 9 || m == 11 then 30
    else 31
  }

  /** `d` names a day that exists in the Gregorian calendar. */
  predicate ValidDate(d: Date) {
    1 <= d.month <= 12 && 1 <= d.day <= DaysInMonth(d.year, d.month)
  }

  /** Chronological order: year first, then month, then day. */
  predicate Before(a: Date, b: Date) {
    a.year < b.year
    || (a.year == b.year && (a.month < b.month || (a.month == b.month && a.day < b.day)))
  }

  /** The day after `d`: the reference the day-number conversion is proved against. */
  function NextDay(d: Date): (r: Date)
    requires ValidDate(d)
    ensures ValidDate(r)
    ensures Before(d, r)
    ensures r.year == d.year || (r.year == d.year + 1 && r.month == 1 && r.day == 1)
  {
    if d.day < DaysInMonth(d.year, d.month) then Date(d.year, d.month, d.day + 1)
    else if d.month < 12 then Date(d.year, d.month + 1, 1)
    else Date(d.year + 1, 1, 1)
  }

  /** Days from 0000-03-01 to 1970-01-01. */
  const EpochOffset: int := 719468

  /** Days from 0000-03-01 to March 1 of year `y`. */
  function MarchStart(y: int): int {
    365 * y + y / 4 - y / 100 + y / 400
  }

  /** Length of the year running from March 1 of `y` to the last day of February of `y + 1`. */
  function MarchYearLength(y: int): int {
    if IsLeapYear(y + 1) then 366 else 365
  }

  /** Days from March 1 to the first day of month `mp`, counted from March (0) to February (11). */
  function MonthOffset(mp: int): int {
    (153 * mp + 2) / 5
  }

  /** The March-based year that holds the day `n` days after 0000-03-01, and the day within it. */
  function SplitMarchYear(n: int): (r: (int, int))
    ensures MarchStart(r.0) + r.1 == n
    ensures 0 <= r.1 < MarchYearLength(r.0)
  {
    var era := n / 146097;
    var doe := n % 146097;
    var c := if doe / 36524 < 3 then doe / 36524 else 3;
    var doc := doe - 36524 * c;
    var q := doc / 1461;
    var doq := doc % 1461;
    var yq := if doq / 365 < 3 then doq / 365 else 3;
    SplitFacts(era, c, q, yq);
    (400 * era + 100 * c + 4 * q + yq, doq - 365 * yq)
  }

  /** The date of day `doy` of the March-based year `y`. */
  function MarchDate(y: int, doy: int): Date {
    var mp := (5 * doy + 2) / 153;
    var m := if mp < 10 then mp + 3 else mp - 9;
    Date(if m <= 2 then y + 1 else y, m, doy - MonthOffset(mp) + 1)
  }

  /** The UTC calendar date of day number `z` (days since 1970-01-01). */
  function CivilFromDays(z: int): (r: Date)
    ensures ValidDate(r)
  {
    var s := SplitMarchYear(z + EpochOffset);
    MarchDateValid(s.0, s.1);
    MarchDate(s.0, s.1)
  }

  /** The day number (days since 1970-01-01) of date `d`. */
  function DaysFromCivil(d: Date): int {
    var y := if d.month <= 2 then d.year - 1 else d.year;
    var mp := if d.month > 2 then d.month - 3 else d.month + 9;
    MarchStart(y) + MonthOffset(mp) + d.day - 1 - EpochOffset
  }

  // ---------------------------------------------------------------------------
  // Lemmas about the March-based year layout
  // ---------------------------------------------------------------------------

  /** The pieces of a mixed-radix year number recombine into its March start. */
  lemma SplitFacts(era: int, c: int, q: int, yq: int)
    requires 0 <= c <= 3 && 0 <= q <= 24 && 0 <= yq <= 3
    ensures MarchStart(400 * era + 100 * c + 4 * q + yq)
            == 146097 * era + 36524 * c + 1461 * q + 365 * yq
    ensures IsLeapYear(400 * era + 100 * c + 4 * q + yq + 1) <==> yq == 3 && (q < 24 || c == 3)
  {
    var y := 400 * era + 100 * c + 4 * q + yq;
    assert y / 4 == 100 * era + 25 * c + q;
    assert y / 100 == 4 * era + c;
    assert y / 400 == era;
    LeapOfSplit(era, c, q, yq);
  }

  lemma LeapOfSplit(era: int, c: int, q: int, yq: int)
    requires 0 <= c <= 3 && 0 <= q <= 24 && 0 <= yq <= 3
    ensures IsLeapYear(400 * era + 100 * c + 4 * q + yq + 1) <==> yq == 3 && (q < 24 || c == 3)
  {
    if yq < 3 {
      LeapOfSplitInsideGroup(100 * era + 25 * c + q, yq);
    } else if q < 24 {
      LeapOfSplitInsideCentury(4 * era + c, q);
    } else if c < 3 {
      LeapOfSplitInsideEra(era, c);
    } else {
      assert 400 * era + 100 * c + 4 * q + yq + 1 == 400 * (era + 1);
    }
  }

  /** A year that is not a multiple of 4 is common. */
  lemma LeapOfSplitInsideGroup(g: int, yq: int)
    requires 0 <= yq < 3
    ensures !IsLeapYear(4 * g + yq + 1)
  {
    assert (4 * g + yq + 1) % 4 == yq + 1;
  }

  /** A multiple of 4 that is not a multiple of 100 is leap. */
  lemma LeapOfSplitInsideCentury(h: int, q: int)
    requires 0 <= q < 24
    ensures IsLeapYear(100 * h + 4 * q + 4)
  {
    assert (100 * h + 4 * q + 4) % 4 == 0;
    assert (100 * h + 4 * q + 4) % 100 == 4 * q + 4;
  }

  /** A multiple of 100 that is not a multiple of 400 is common. */
  lemma LeapOfSplitInsideEra(era: int, c: int)
    requires 0 <= c < 3
    ensures !IsLeapYear(400 * era + 100 * c + 100)
  {
    assert (400 * era + 100 * c + 100) % 100 == 0;
    assert (400 * era + 100 * c + 100) % 400 == 100 * c + 100;
  }

  /** Consecutive March-based years tile the day line. */
  lemma MarchStartStep(y: int)
    ensures MarchStart(y + 1) == MarchStart(y) + MarchYearLength(y)
  {
    FloorStep4(y);
    FloorStep100(y);
    FloorStep400(y);
    MultipleChain(y + 1);
  }

  /** Multiples of 400 are multiples of 100, which are multiples of 4. */
  lemma MultipleChain(x: int)
    ensures x % 400 == 0 ==> x % 100 == 0
    ensures x % 100 == 0 ==> x % 4 == 0
  {
  }

  // Floor division steps up by one exactly at the multiples of the divisor.

  lemma FloorStep4(y: int)
    ensures (y + 1) / 4 - y / 4 == (if (y + 1) % 4 == 0 then 1 else 0)
  {
  }

  lemma FloorStep100(y: int)
    ensures (y + 1) / 100 - y / 100 == (if (y + 1) % 100 == 0 then 1 else 0)
  {
  }

  lemma FloorStep400(y: int)
    ensures (y + 1) / 400 - y / 400 == (if (y + 1) % 400 == 0 then 1 else 0)
  {
  }

  /** Later March-based years start no earlier than the end of earlier ones. */
  lemma {:induction false} MarchStartMonotone(y: int, y': int)
    requires y < y'
    ensures MarchStart(y) + MarchYearLength(y) <= MarchStart(y')
    decreases y' - y
  {
    MarchStartStep(y);
    if y' > y + 1 {
      MarchStartMonotone(y, y' - 1);
      MarchStartStep(y' - 1);
    }
  }

  /** A day number has exactly one (March-based year, day of year) reading. */
  lemma MarchSplitUnique(y: int, a: int, y': int, b: int)
    requires 0 <= a < MarchYearLength(y) && 0 <= b < MarchYearLength(y')
    requires MarchStart(y) + a == MarchStart(y') + b
    ensures y == y' && a == b
  {
    if y < y' {
      MarchStartMonotone(y, y');
    } else if y' < y {
      MarchStartMonotone(y', y);
    }
  }

  /** The month index `(5 * doy + 2) / 153` picks the month whose offsets bracket `doy`. */
  lemma MonthOfDay(doy: int)
    requires 0 <= doy <= 365
    ensures 0 <= (5 * doy + 2) / 153 <= 11
    ensures MonthOffset((5 * doy + 2) / 153) <= doy < MonthOffset((5 * doy + 2) / 153 + 1)
  {
  }

  /** The length of month `mp` of the March-based year `y`, as the calendar counts it. */
  lemma MonthLength(y: int, mp: int)
    requires 0 <= mp <= 11
    ensures var m := if mp < 10 then mp + 3 else mp - 9;
            DaysInMonth(if m <= 2 then y + 1 else y, m)
            == (if mp < 11 then MonthOffset(mp + 1) else MarchYearLength(y)) - MonthOffset(mp)
  {
  }

  lemma MarchDateValid(y: int, doy: int)
    requires 0 <= doy < MarchYearLength(y)
    ensures ValidDate(MarchDate(y, doy))
  {
    MonthOfDay(doy);
    MonthLength(y, (5 * doy + 2) / 153);
  }

  /** Inside one March-based year, the next day of the year is the next calendar day. */
  lemma MarchDateStep(y: int, doy: int)
    requires 0 <= doy && doy + 1 < MarchYearLength(y)
    ensures ValidDate(MarchDate(y, doy))
    ensures MarchDate(y, doy + 1) == NextDay(MarchDate(y, doy))
  {
    MarchDateValid(y, doy);
    MonthOfDay(doy);
    MonthOfDay(doy + 1);
    MonthLength(y, (5 * doy + 2) / 153);
  }

  /** The last day of a March-based year is followed by March 1 of the next. */
  lemma MarchDateYearEnd(y: int)
    ensures ValidDate(MarchDate(y, MarchYearLength(y) - 1))
    ensures NextDay(MarchDate(y, MarchYearLength(y) - 1)) == MarchDate(y + 1, 0)
  {
    MarchDateValid(y, MarchYearLength(y) - 1);
  }

  // ---------------------------------------------------------------------------
  // The day-number conversion against the calendar
  // ---------------------------------------------------------------------------

  /** Day 0 is 1970-01-01. */
  lemma EpochIsNewYear1970()
    ensures CivilFromDays(0) == Date(1970, 1, 1)
    ensures DaysFromCivil(Date(1970, 1, 1)) == 0
  {
    assert MarchStart(1969) == 719162;
    assert MarchYearLength(1969) == 365;
    MarchDayOfDate(0, 1969, 306);
    assert MarchDate(1969, 306) == Date(1970, 1, 1);
  }

  /** The date of day `z + 1` is the calendar day after the date of day `z`. */
  lemma CivilFromDaysSucc(z: int)
    ensures CivilFromDays(z + 1) == NextDay(CivilFromDays(z))
  {
    var s := SplitMarchYear(z + EpochOffset);
    if s.1 + 1 < MarchYearLength(s.0) {
      SuccWithinYear(z, s.0, s.1);
    } else {
      SuccAtYearEnd(z, s.0);
    }
  }

  /** `CivilFromDaysSucc` for a day that is not the last of its March-based year. */
  lemma SuccWithinYear(z: int, y: int, doy: int)
    requires 0 <= doy && doy + 1 < MarchYearLength(y)
    requires z + EpochOffset == MarchStart(y) + doy
    ensures CivilFromDays(z + 1) == NextDay(CivilFromDays(z))
  {
    MarchDayOfDate(z, y, doy);
    MarchDayOfDate(z + 1, y, doy + 1);
    MarchDateStep(y, doy);
    NextDayCongruence(CivilFromDays(z + 1), CivilFromDays(z), MarchDate(y, doy + 1), MarchDate(y, doy));
  }

  /** `CivilFromDaysSucc` for the last day of a March-based year. */
  lemma SuccAtYearEnd(z: int, y: int)
    requires z + EpochOffset == MarchStart(y) + MarchYearLength(y) - 1
    ensures CivilFromDays(z + 1) == NextDay(CivilFromDays(z))
  {
    MarchDayOfDate(z, y, MarchYearLength(y) - 1);
    MarchStartStep(y);
    MarchDayOfDate(z + 1, y + 1, 0);
    MarchDateYearEnd(y);
    NextDayCongruence(CivilFromDays(z + 1), CivilFromDays(z), MarchDate(y + 1, 0), MarchDate(y, MarchYearLength(y) - 1));
  }

  /** Rewrites `a == NextDay(b)` through equal dates, outside the calendar arithmetic. */
  lemma NextDayCongruence(a: Date, b: Date, c: Date, d: Date)
    requires ValidDate(d) && a == c && b == d && c == NextDay(d)
    ensures ValidDate(b) && a == NextDay(b)
  {
  }

  /** A later day number never has an earlier or equal date. */
  lemma {:induction false} CivilFromDaysMonotone(z: int, z': int)
    requires z < z'
    ensures Before(CivilFromDays(z), CivilFromDays(z'))
    decreases z' - z
  {
    var p := z' - 1;
    CivilFromDaysSucc(p);
    assert p + 1 == z';
    var b, c := CivilFromDays(p), CivilFromDays(z');
    assert c == NextDay(b);
    assert Before(b, c);
    if z != p {
      CivilFromDaysMonotone(z, p);
      BeforeTransitive(CivilFromDays(z), b, c);
    }
  }

  lemma BeforeAsymmetric(a: Date, b: Date)
    requires Before(a, b)
    ensures !Before(b, a) && a != b
  {
  }

  lemma BeforeTransitive(a: Date, b: Date, c: Date)
    requires Before(a, b) && Before(b, c)
    ensures Before(a, c)
  {
  }

  /** Distinct day numbers have distinct dates. */
  lemma CivilFromDaysInjective(z: int, z': int)
    ensures CivilFromDays(z) == CivilFromDays(z') <==> z == z'
  {
    if z < z' {
      CivilFromDaysMonotone(z, z');
    } else if z' < z {
      CivilFromDaysMonotone(z', z);
    }
  }

  /** The date of a day given by its March-based year and day of year. */
  lemma MarchDayOfDate(z: int, y: int, doy: int)
    requires 0 <= doy < MarchYearLength(y)
    requires z + EpochOffset == MarchStart(y) + doy
    ensures CivilFromDays(z) == MarchDate(y, doy)
  {
    var s := SplitMarchYear(z + EpochOffset);
    MarchSplitUnique(y, doy, s.0, s.1);
  }

  /** Converting a day number to a date and back gives the day number. */
  lemma DaysFromCivilInverse(z: int)
    ensures DaysFromCivil(CivilFromDays(z)) == z
  {
    var s := SplitMarchYear(z + EpochOffset);
    MonthOfDay(s.1);
  }

  /** Converting a valid date to a day number and back gives the date. */
  lemma CivilFromDaysInverse(d: Date)
    requires ValidDate(d)
    ensures CivilFromDays(DaysFromCivil(d)) == d
  {
    var y := if d.month <= 2 then d.year - 1 else d.year;
    var mp := if d.month > 2 then d.month - 3 else d.month + 9;
    var doy := MonthOffset(mp) + d.day - 1;
    MonthLength(y, mp);
    assert 0 <= doy < MarchYearLength(y);
    MarchDayOfDate(DaysFromCivil(d), y, doy);
    MonthOfDay(doy);
  }
}
