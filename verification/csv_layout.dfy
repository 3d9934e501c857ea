/**
 * The text `update_local_csv` writes: a header naming the columns `date` and
 * `FGI`, then one line per row with the date as "%Y-%m-%d" and the value.
 * The rendering of the value is opaque: `render` stands for pandas' float
 * formatting. Lines are given without their terminator.
 */
module CsvLayout {
  import opened Options
  import opened Calendar
  import opened PyInt
  import opened Series
  import opened Normaliser

  /** The header line: the index label `date`, then the column `FGI`. */
  const Header: string := "date,FGI"

  function Pow10(k: nat): (p: nat)
    ensures p >= 1
  {
    if k == 0 then 1 else 10 * Pow10(k - 1)
  }

  /** The last `width` decimal digits of `n`, zero-padded on the left. */
  function PadDigits(n: nat, width: nat): (s: string)
    ensures |s| == width && AllDigits(s)
  {
    if width == 0 then [] else PadDigits(n / 10, width - 1) + [DigitChar(n % 10)]
  }

  /** Padding loses nothing when `n` fits in `width` digits. */
  lemma {:induction false} PadDigitsValue(n: nat, width: nat)
    requires n < Pow10(width)
    ensures DigitsValue(PadDigits(n, width)) == n
  {
    if width > 0 {
      var s := PadDigits(n, width);
      PadDigitsValue(n / 10, width - 1);
      assert s[..|s| - 1] == PadDigits(n / 10, width - 1);
    }
  }

  /** A date `datetime` can hold, so that "%Y" has four digits. */
  predicate Writable(d: Date) {
    ValidDate(d) && 1 <= d.year <= 9999
  }

  /** The "%Y-%m-%d" text of a date. */
  function FormatDate(d: Date): (s: string)
    requires Writable(d)
    ensures |s| == 10 && s[4] == '-' && s[7] == '-'
  {
    PadDigits(d.year, 4) + "-" + PadDigits(d.month, 2) + "-" + PadDigits(d.day, 2)
  }

  /** Reads "YYYY-MM-DD" text back as a date; `None` when it has another shape. */
  function ParseDate(s: string): Option<Date> {
    if |s| == 10 && s[4] == '-' && s[7] == '-'
       && AllDigits(s[..4]) && AllDigits(s[5..7]) && AllDigits(s[8..])
    then Some(Date(DigitsValue(s[..4]), DigitsValue(s[5..7]), DigitsValue(s[8..])))
    else None
  }

  /** The written date reads back as the same date. */
  lemma ParseFormatDate(d: Date)
    requires Writable(d)
    ensures ParseDate(FormatDate(d)) == Some(d)
  {
    var s := FormatDate(d);
    PadDigitsValue(d.year, 4);
    PadDigitsValue(d.month, 2);
    PadDigitsValue(d.day, 2);
    assert s[..4] == PadDigits(d.year, 4);
    assert s[5..7] == PadDigits(d.month, 2);
    assert s[8..] == PadDigits(d.day, 2);
  }

  /** The line of one row: the date, a comma, the rendered value. */
  function RowLine<N>(row: Row<N>, render: N -> string): (line: string)
    requires MinDay <= row.stamp <= MaxDay
    ensures |line| >= 11 && line[10] == ','
    ensures ParseDate(line[..10]) == Some(CivilFromDays(row.stamp))
    ensures line[11..] == render(row.value)
  {
    var d := CivilFromDays(row.stamp);
    DatetimeDayRange(row.stamp);
    ParseFormatDate(d);
    var line := FormatDate(d) + "," + render(row.value);
    assert line[..10] == FormatDate(d);
    line
  }

  /**
   * The lines of the CSV file: the header alone for an empty table,
   * otherwise the header and one line per row, in table order.
   */
  function CsvLines<N>(table: seq<Row<N>>, render: N -> string): (lines: seq<string>)
    requires forall k :: 0 <= k < |table| ==> MinDay <= table[k].stamp <= MaxDay
    ensures |lines| == |table| + 1
    ensures lines[0] == Header
    ensures forall k :: 0 <= k < |table| ==>
              && |lines[k + 1]| >= 11 && lines[k + 1][10] == ','
              && ParseDate(lines[k + 1][..10]) == Some(CivilFromDays(table[k].stamp))
              && lines[k + 1][11..] == render(table[k].value)
  {
    if |table| == 0 then [Header]
    else [Header] + seq(|table|, k requires 0 <= k < |table| => RowLine(table[k], render))
  }

  /** The dates of a table sorted by day number read back in strictly ascending order, line by line. */
  lemma CsvDatesAscend<N>(table: seq<Row<N>>, render: N -> string)
    requires forall k :: 0 <= k < |table| ==> MinDay <= table[k].stamp <= MaxDay
    requires StrictlyAscending(table)
    ensures var lines := CsvLines(table, render);
            forall k, l :: 1 <= k < l < |lines| ==>
              && |lines[k]| >= 10 && |lines[l]| >= 10
              && ParseDate(lines[k][..10]).Some? && ParseDate(lines[l][..10]).Some?
              && Before(ParseDate(lines[k][..10]).value, ParseDate(lines[l][..10]).value)
  {
    var lines := CsvLines(table, render);
    forall k, l | 1 <= k < l < |lines|
      ensures |lines[k]| >= 10 && |lines[l]| >= 10
      ensures ParseDate(lines[k][..10]) == Some(CivilFromDays(table[k - 1].stamp))
      ensures ParseDate(lines[l][..10]) == Some(CivilFromDays(table[l - 1].stamp))
      ensures Before(CivilFromDays(table[k - 1].stamp), CivilFromDays(table[l - 1].stamp))
    {
      CivilFromDaysMonotone(table[k - 1].stamp, table[l - 1].stamp);
    }
  }

  /** The file written for the records of a response, whatever they hold. */
  lemma FgiCsvLayout<V, N>(rs: seq<Record<V>>, toNumber: V -> Option<N>, render: N -> string)
    ensures var table := FgiTable(rs, toNumber);
            var lines := CsvLines(table, render);
            && lines[0] == Header
            && (|lines| == 1 <==> forall i :: 0 <= i < |rs| ==> Extract(rs[i], toNumber).None?)
            && forall k, l :: 1 <= k < l < |lines| ==>
                 && |lines[k]| >= 10 && |lines[l]| >= 10
                 && ParseDate(lines[k][..10]).Some? && ParseDate(lines[l][..10]).Some?
                 && Before(ParseDate(lines[k][..10]).value, ParseDate(lines[l][..10]).value)
  {
    CsvDatesAscend(FgiTable(rs, toNumber), render);
  }
}
