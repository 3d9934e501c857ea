/**
 * The record normaliser of the FGI export: the loop over the API's raw
 * records, the keep-first removal of duplicate dates and the sort by date.
 *
 * The value of a record is opaque: `toNumber` stands for `float(val)`,
 * `None` where Python raises.
 */
module Normaliser {
  import opened Options
  import opened PyInt
  import opened Calendar
  import opened Series

  /** Seconds in a UTC day. */
  const SecondsPerDay: int := 86400

  /** One entry of the response's `data` list; a field is `None` when it is absent or JSON `null`. */
  datatype Record<V> = Record(timestamp: Option<Json>, value: Option<V>)

  /** Years `datetime` can represent; outside them `utcfromtimestamp` raises. */
  predicate InDatetimeRange(d: Date) {
    1 <= d.year <= 9999
  }

  /** The day numbers of 0001-01-01 and 9999-12-31, the first and last days `datetime` can represent. */
  const MinDay: int := -719162
  const MaxDay: int := 2932896

  /** The day number of the UTC day holding epoch second `ts`. */
  function DayOfTimestamp(ts: int): (z: int)
    ensures z * SecondsPerDay <= ts < (z + 1) * SecondsPerDay
  {
    ts / SecondsPerDay
  }

  /**
   * The row one record contributes, or `None` when the loop body skips it:
   * a field is missing, the timestamp does not convert with `int`, its UTC
   * day is outside what `datetime` represents, or the value does not convert.
   * The row's date is the UTC day of the timestamp, time of day dropped.
   */
  function Extract<V, N>(r: Record<V>, toNumber: V -> Option<N>): (row: Option<Row<N>>)
    ensures r.timestamp.None? || r.value.None? ==> row.None?
    ensures r.timestamp.Some? && IntOf(r.timestamp.value).None? ==> row.None?
    ensures r.value.Some? && toNumber(r.value.value).None? ==> row.None?
    ensures row.Some? ==>
              && r.timestamp.Some? && r.value.Some?
              && IntOf(r.timestamp.value).Some?
              && row.value.stamp == DayOfTimestamp(IntOf(r.timestamp.value).value)
              && MinDay <= row.value.stamp <= MaxDay
              && Some(row.value.value) == toNumber(r.value.value)
    ensures && r.timestamp.Some? && r.value.Some?
            && IntOf(r.timestamp.value).Some?
            && MinDay <= DayOfTimestamp(IntOf(r.timestamp.value).value) <= MaxDay
            && toNumber(r.value.value).Some?
            ==> row.Some?
  {
    if r.timestamp.None? || r.value.None? then None
    else
      match IntOf(r.timestamp.value)
      case None => None
      case Some(ts) =>
        var z := DayOfTimestamp(ts);
        if !(MinDay <= z <= MaxDay) then None
        else
          match toNumber(r.value.value)
          case None => None
          case Some(x) => Some(Row(z, x))
  }

  /**
   * There is no second reading of the timestamp as a formatted date: a string
   * with a non-digit after its first character, such as "01-15-2024", fails
   * `int` and the record is skipped.
   */
  lemma FormattedDateIsSkipped<V, N>(r: Record<V>, toNumber: V -> Option<N>, k: int)
    requires r.timestamp.Some? && r.timestamp.value.JStr?
    requires 0 < k < |r.timestamp.value.s| && !IsDigit(r.timestamp.value.s[k])
    ensures Extract(r, toNumber).None?
  {
    var s := r.timestamp.value.s;
    assert s[1..][k - 1] == s[k];
  }

  /** The first day `datetime` represents, and the day before it. */
  lemma DatetimeFirstDay()
    ensures CivilFromDays(MinDay - 1) == Date(0, 12, 31)
    ensures CivilFromDays(MinDay) == Date(1, 1, 1)
  {
    MarchDayOfDate(MinDay - 1, 0, 305);
    MarchDayOfDate(MinDay, 0, 306);
  }

  /** The last day `datetime` represents, and the day after it. */
  lemma DatetimeLastDay()
    ensures CivilFromDays(MaxDay) == Date(9999, 12, 31)
    ensures CivilFromDays(MaxDay + 1) == Date(10000, 1, 1)
  {
    assert MarchStart(9999) == 3652059;
    assert MarchYearLength(9999) == 366;
    MarchDayOfDate(MaxDay, 9999, 305);
    assert MarchDate(9999, 305) == Date(9999, 12, 31);
    MarchDayOfDate(MaxDay + 1, 9999, 306);
    assert MarchDate(9999, 306) == Date(10000, 1, 1);
  }

  /**
   * The day-number range `Extract` accepts is the year range of `datetime`;
   * storing the day number is what `pd.to_datetime` of the date gives back.
   */
  lemma DatetimeDayRange(z: int)
    ensures MinDay <= z <= MaxDay <==> InDatetimeRange(CivilFromDays(z))
    ensures DaysFromCivil(CivilFromDays(z)) == z
  {
    DaysFromCivilInverse(z);
    DatetimeFirstDay();
    DatetimeLastDay();
    if z < MinDay - 1 {
      CivilFromDaysMonotone(z, MinDay - 1);
    } else if MinDay < z {
      CivilFromDaysMonotone(MinDay, z);
    }
    if z < MaxDay {
      CivilFromDaysMonotone(z, MaxDay);
    } else if MaxDay + 1 < z {
      CivilFromDaysMonotone(MaxDay + 1, z);
    }
  }

  /** The loop body of `fetch_fgi_api`, as the step the table builder runs on each record. */
  function ExtractStep<V, N>(toNumber: V -> Option<N>): Record<V> -> Option<Row<N>> {
    r => Extract(r, toNumber)
  }

  /** The UTC days of the records the loop keeps. */
  ghost function ValidDays<V, N>(rs: seq<Record<V>>, toNumber: V -> Option<N>): set<int> {
    set i | 0 <= i < |rs| && Extract(rs[i], toNumber).Some? :: DayOfTimestamp(IntOf(rs[i].timestamp.value).value)
  }

  /**
   * The table `fetch_fgi_api` returns for the records of a response: at most
   * one row per date, in strictly ascending date order, covering exactly the
   * UTC days of the records that pass; empty exactly when none passes.
   */
  function FgiTable<V, N>(rs: seq<Record<V>>, toNumber: V -> Option<N>): (table: seq<Row<N>>)
    ensures StrictlyAscending(table)
    ensures Stamps(table) == ValidDays(rs, toNumber)
    ensures |table| == 0 <==> forall i :: 0 <= i < |rs| ==> Extract(rs[i], toNumber).None?
    ensures forall k :: 0 <= k < |table| ==> MinDay <= table[k].stamp <= MaxDay
  {
    var step := ExtractStep(toNumber);
    StepIsExtract(rs, toNumber);
    ValidDaysAreValidStamps(rs, toNumber);
    NormaliseWithinRange(rs, toNumber);
    Normalise(rs, step)
  }

  lemma StepIsExtract<V, N>(rs: seq<Record<V>>, toNumber: V -> Option<N>)
    ensures forall i :: 0 <= i < |rs| ==> ExtractStep(toNumber)(rs[i]) == Extract(rs[i], toNumber)
    ensures forall i :: Valid(rs, ExtractStep(toNumber), i) <==> 0 <= i < |rs| && Extract(rs[i], toNumber).Some?
  {
  }

  lemma ValidDaysAreValidStamps<V, N>(rs: seq<Record<V>>, toNumber: V -> Option<N>)
    ensures ValidStamps(rs, ExtractStep(toNumber)) == ValidDays(rs, toNumber)
  {
    var step := ExtractStep(toNumber);
    StepIsExtract(rs, toNumber);
    forall d | d in ValidStamps(rs, step)
      ensures d in ValidDays(rs, toNumber)
    {
      var i :| 0 <= i < |rs| && Valid(rs, step, i) && RowOf(rs, step, i).stamp == d;
      assert Extract(rs[i], toNumber).Some?;
    }
    forall d | d in ValidDays(rs, toNumber)
      ensures d in ValidStamps(rs, step)
    {
      var i :| 0 <= i < |rs| && Extract(rs[i], toNumber).Some?
               && DayOfTimestamp(IntOf(rs[i].timestamp.value).value) == d;
      assert Valid(rs, step, i);
    }
  }

  lemma NormaliseWithinRange<V, N>(rs: seq<Record<V>>, toNumber: V -> Option<N>)
    ensures var table := Normalise(rs, ExtractStep(toNumber));
            forall k :: 0 <= k < |table| ==> MinDay <= table[k].stamp <= MaxDay
  {
    var step := ExtractStep(toNumber);
    var table := Normalise(rs, step);
    forall k | 0 <= k < |table|
      ensures MinDay <= table[k].stamp <= MaxDay
    {
      NormaliseRowOrigin(rs, step, k);
      var i :| 0 <= i < |rs| && step(rs[i]) == Some(table[k]);
      assert Extract(rs[i], toNumber) == Some(table[k]);
    }
  }

  // ---------------------------------------------------------------------------
  // Lemmas about dates
  // ---------------------------------------------------------------------------

  /** Two timestamps in the same 86400-second UTC day have the same date. */
  lemma SameUtcDaySameDate(z: int, t: int, t': int)
    requires z * SecondsPerDay <= t < (z + 1) * SecondsPerDay
    requires z * SecondsPerDay <= t' < (z + 1) * SecondsPerDay
    ensures DayOfTimestamp(t) == DayOfTimestamp(t') == z
    ensures CivilFromDays(DayOfTimestamp(t)) == CivilFromDays(DayOfTimestamp(t'))
  {
  }

  /** A later timestamp never has an earlier date; in a later UTC day it has a later date. */
  lemma LaterTimestampLaterDate(t: int, t': int)
    requires t <= t'
    ensures DayOfTimestamp(t) <= DayOfTimestamp(t')
    ensures DayOfTimestamp(t) == DayOfTimestamp(t') || Before(CivilFromDays(DayOfTimestamp(t)), CivilFromDays(DayOfTimestamp(t')))
    ensures !Before(CivilFromDays(DayOfTimestamp(t')), CivilFromDays(DayOfTimestamp(t)))
  {
    var z, z' := DayOfTimestamp(t), DayOfTimestamp(t');
    if z < z' {
      CivilFromDaysMonotone(z, z');
      BeforeAsymmetric(CivilFromDays(z), CivilFromDays(z'));
    }
  }

  /** Read as calendar dates, the table's dates ascend strictly from top to bottom. */
  lemma FgiTableDatesAscend<V, N>(rs: seq<Record<V>>, toNumber: V -> Option<N>)
    ensures var table := FgiTable(rs, toNumber);
            forall i, j :: 0 <= i < j < |table| ==>
              Before(CivilFromDays(table[i].stamp), CivilFromDays(table[j].stamp))
  {
    var table := FgiTable(rs, toNumber);
    forall i, j | 0 <= i < j < |table|
      ensures Before(CivilFromDays(table[i].stamp), CivilFromDays(table[j].stamp))
    {
      CivilFromDaysMonotone(table[i].stamp, table[j].stamp);
    }
  }

  /** Each row is the row of the first record with its date, and each such record has its row. */
  lemma FgiTableKeepsFirst<V, N>(rs: seq<Record<V>>, toNumber: V -> Option<N>, row: Row<N>)
    ensures row in FgiTable(rs, toNumber) <==>
              exists i :: FirstOfItsDate(rs, ExtractStep(toNumber), i) && Extract(rs[i], toNumber) == Some(row)
  {
    NormaliseKeepsFirst(rs, ExtractStep(toNumber), row);
  }
}
