/**
 * The table-building steps of the FGI normaliser, independent of how one
 * record becomes a row: the loop that keeps the rows of the records that
 * pass, `drop_duplicates(subset=["date"])` with its default `keep="first"`,
 * and `sort_values("date")`.
 *
 * `step` is the loop body: the row a record contributes, or `None` when the
 * record is skipped.
 */
module Series {
  import opened Options

  /**
   * A row of the table: the date as its midnight UTC timestamp, counted in
   * days since 1970-01-01 (the order pandas sorts and compares dates by), and
   * the converted value.
   */
  datatype Row<N> = Row(stamp: int, value: N)

  /** Record `i` passes every check of the loop body. */
  predicate Valid<R, N>(rs: seq<R>, step: R -> Option<Row<N>>, i: int) {
    0 <= i < |rs| && step(rs[i]).Some?
  }

  /** The row of valid record `i`. */
  function RowOf<R, N>(rs: seq<R>, step: R -> Option<Row<N>>, i: int): Row<N>
    requires Valid(rs, step, i)
  {
    step(rs[i]).value
  }

  /** The dates of all valid records. */
  ghost function ValidStamps<R, N>(rs: seq<R>, step: R -> Option<Row<N>>): set<int> {
    set i | 0 <= i < |rs| && Valid(rs, step, i) :: RowOf(rs, step, i).stamp
  }

  /** Record `i` is valid and no earlier valid record has the same date. */
  ghost predicate FirstOfItsDate<R, N>(rs: seq<R>, step: R -> Option<Row<N>>, i: int) {
    && Valid(rs, step, i)
    && forall j :: 0 <= j < i && Valid(rs, step, j) ==>
         RowOf(rs, step, j).stamp != RowOf(rs, step, i).stamp
  }

  /** The rows the loop appends, in input order. */
  function Collect<R, N>(rs: seq<R>, step: R -> Option<Row<N>>): (rows: seq<Row<N>>)
    ensures |rows| <= |rs|
  {
    if |rs| == 0 then []
    else
      var p := Collect(rs[..|rs| - 1], step);
      match step(rs[|rs| - 1])
      case None => p
      case Some(row) => p + [row]
  }

  /** Every row the loop appends is the row of some valid record. */
  lemma {:induction false} CollectRowOrigin<R, N>(rs: seq<R>, step: R -> Option<Row<N>>, k: int)
    requires 0 <= k < |Collect(rs, step)|
    ensures exists i :: Valid(rs, step, i) && RowOf(rs, step, i) == Collect(rs, step)[k]
  {
    var q := rs[..|rs| - 1];
    var p := Collect(q, step);
    if k < |p| {
      CollectRowOrigin(q, step, k);
      var i :| Valid(q, step, i) && RowOf(q, step, i) == p[k];
      assert Valid(rs, step, i) && RowOf(rs, step, i) == Collect(rs, step)[k];
    } else {
      assert Valid(rs, step, |rs| - 1);
    }
  }

  // ---------------------------------------------------------------------------
  // Sets and orders of dates
  // ---------------------------------------------------------------------------

  function Stamps<N>(s: seq<Row<N>>): set<int> {
    set k | 0 <= k < |s| :: s[k].stamp
  }

  /** No date occurs twice. */
  ghost predicate UniqueStamps<N>(s: seq<Row<N>>) {
    forall i, j :: 0 <= i < j < |s| ==> s[i].stamp != s[j].stamp
  }

  ghost predicate Ascending<N>(s: seq<Row<N>>) {
    forall i, j :: 0 <= i < j < |s| ==> s[i].stamp <= s[j].stamp
  }

  ghost predicate StrictlyAscending<N>(s: seq<Row<N>>) {
    forall i, j :: 0 <= i < j < |s| ==> s[i].stamp < s[j].stamp
  }

  // ---------------------------------------------------------------------------
  // drop_duplicates(subset=["date"]) with its default keep="first"
  // ---------------------------------------------------------------------------

  /** The rows whose date has not occurred before, in their original order. */
  function DropDuplicateDates<N>(s: seq<Row<N>>): (r: seq<Row<N>>)
    ensures UniqueStamps(r)
    ensures Stamps(r) == Stamps(s)
    ensures forall k :: 0 <= k < |r| ==> r[k] in s
    ensures |r| <= |s|
  {
    if |s| == 0 then []
    else
      var p := DropDuplicateDates(s[..|s| - 1]);
      var last := s[|s| - 1];
      StampsAppend(s[..|s| - 1], last);
      assert s[..|s| - 1] + [last] == s;
      if last.stamp in Stamps(p) then p
      else
        StampsAppend(p, last);
        p + [last]
  }

  lemma StampsAppend<N>(s: seq<Row<N>>, x: Row<N>)
    ensures Stamps(s + [x]) == Stamps(s) + {x.stamp}
  {
    var t := s + [x];
    assert forall k :: 0 <= k < |s| ==> t[k] == s[k];
    assert t[|s|] == x;
  }

  // ---------------------------------------------------------------------------
  // sort_values("date")
  // ---------------------------------------------------------------------------

  /** Every row of `s` is dated `lo` or later. */
  ghost predicate NoEarlierThan<N>(s: seq<Row<N>>, lo: int) {
    forall k :: 0 <= k < |s| ==> lo <= s[k].stamp
  }

  lemma NoEarlierThanPermutation<N>(s: seq<Row<N>>, t: seq<Row<N>>, lo: int)
    requires multiset(s) == multiset(t) && NoEarlierThan(s, lo)
    ensures NoEarlierThan(t, lo)
  {
    forall k | 0 <= k < |t|
      ensures lo <= t[k].stamp
    {
      assert t[k] in multiset(s);
    }
  }

  /** Inserts `x` into an ascending sequence. */
  function Insert<N>(x: Row<N>, s: seq<Row<N>>): (r: seq<Row<N>>)
    requires Ascending(s)
    ensures Ascending(r)
    ensures multiset(r) == multiset(s) + multiset{x}
  {
    if |s| == 0 then [x]
    else if x.stamp <= s[0].stamp then [x] + s
    else
      var t := Insert(x, s[1..]);
      assert s == [s[0]] + s[1..];
      NoEarlierThanPermutation(s[1..] + [x], t, s[0].stamp);
      [s[0]] + t
  }

  /** The rows ordered by date. */
  function SortByDate<N>(s: seq<Row<N>>): (r: seq<Row<N>>)
    ensures Ascending(r)
    ensures multiset(r) == multiset(s)
  {
    if |s| == 0 then []
    else
      assert s == [s[0]] + s[1..];
      Insert(s[0], SortByDate(s[1..]))
  }

  // ---------------------------------------------------------------------------
  // The whole normaliser
  // ---------------------------------------------------------------------------

  /** The table `fetch_fgi_api` builds from the records: one row per date, ordered by date. */
  function Normalise<R, N>(rs: seq<R>, step: R -> Option<Row<N>>): (series: seq<Row<N>>)
    ensures StrictlyAscending(series)
    ensures Stamps(series) == ValidStamps(rs, step)
    ensures |series| == 0 <==> forall i :: 0 <= i < |rs| ==> !Valid(rs, step, i)
  {
    var rows := Collect(rs, step);
    CollectValidStamps(rs, step);
    NoValidRecord(rs, step);
    if |rows| == 0 then
      []
    else
      var unique := DropDuplicateDates(rows);
      var series := SortByDate(unique);
      SortByDateStrict(unique);
      StampsPermutation(unique, series);
      assert rows[0].stamp in Stamps(rows);
      series
  }

  // ---------------------------------------------------------------------------
  // Lemmas: sorting rows with distinct dates
  // ---------------------------------------------------------------------------

  /** Reordering rows does not change their set of dates. */
  lemma StampsPermutation<N>(s: seq<Row<N>>, t: seq<Row<N>>)
    requires multiset(s) == multiset(t)
    ensures Stamps(s) == Stamps(t)
  {
    forall d | d in Stamps(s)
      ensures d in Stamps(t)
    {
      var k :| 0 <= k < |s| && s[k].stamp == d;
      assert s[k] in multiset(t);
    }
    forall d | d in Stamps(t)
      ensures d in Stamps(s)
    {
      var k :| 0 <= k < |t| && t[k].stamp == d;
      assert t[k] in multiset(s);
    }
  }

  /** Inserting a row with a new date into a strictly ascending sequence keeps it strictly ascending. */
  lemma {:induction false} InsertStrict<N>(x: Row<N>, s: seq<Row<N>>)
    requires StrictlyAscending(s)
    requires x.stamp !in Stamps(s)
    ensures Ascending(s)
    ensures StrictlyAscending(Insert(x, s))
  {
    if |s| > 0 {
      assert s[0].stamp in Stamps(s);
      if x.stamp <= s[0].stamp {
        assert NoEarlierThan(s, x.stamp + 1);
        PrependStrict(x, s);
      } else {
        var tail := s[1..];
        TailStamps(s);
        InsertStrict(x, tail);
        var t := Insert(x, tail);
        assert NoEarlierThan(tail + [x], s[0].stamp + 1);
        NoEarlierThanPermutation(tail + [x], t, s[0].stamp + 1);
        PrependStrict(s[0], t);
      }
    }
  }

  /** A row dated before every row of a strictly ascending sequence can head it. */
  lemma PrependStrict<N>(h: Row<N>, t: seq<Row<N>>)
    requires StrictlyAscending(t) && NoEarlierThan(t, h.stamp + 1)
    ensures StrictlyAscending([h] + t)
  {
    var s := [h] + t;
    forall i, j | 0 <= i < j < |s|
      ensures s[i].stamp < s[j].stamp
    {
      assert s[j] == t[j - 1];
      if i > 0 {
        assert s[i] == t[i - 1];
      }
    }
  }

  /** The tail of a strictly ascending sequence is strictly ascending and has no new dates. */
  lemma TailStamps<N>(s: seq<Row<N>>)
    requires |s| > 0 && StrictlyAscending(s)
    ensures StrictlyAscending(s[1..])
    ensures Stamps(s[1..]) <= Stamps(s)
  {
    forall d | d in Stamps(s[1..])
      ensures d in Stamps(s)
    {
      var k :| 0 <= k < |s[1..]| && s[1..][k].stamp == d;
      assert s[k + 1].stamp == d;
    }
  }

  /** Rows with distinct dates sort into strictly ascending order. */
  lemma {:induction false} SortByDateStrict<N>(s: seq<Row<N>>)
    requires UniqueStamps(s)
    ensures StrictlyAscending(SortByDate(s))
  {
    if |s| > 0 {
      var t := SortByDate(s[1..]);
      SortByDateStrict(s[1..]);
      StampsPermutation(s[1..], t);
      assert s[0].stamp !in Stamps(s[1..]);
      InsertStrict(s[0], t);
    }
  }

  // ---------------------------------------------------------------------------
  // Lemmas: what the loop keeps
  // ---------------------------------------------------------------------------

  /** The first records of `rs` are those of its prefix. */
  lemma ValidPrefix<R, N>(rs: seq<R>, step: R -> Option<Row<N>>, n: nat)
    requires n <= |rs|
    ensures forall i :: 0 <= i < n ==> Valid(rs[..n], step, i) == Valid(rs, step, i)
    ensures forall i :: 0 <= i < n && Valid(rs, step, i) ==>
              RowOf(rs[..n], step, i) == RowOf(rs, step, i)
  {
    assert forall i :: 0 <= i < n ==> rs[..n][i] == rs[i];
  }

  /** No record is valid exactly when no date is. */
  lemma NoValidRecord<R, N>(rs: seq<R>, step: R -> Option<Row<N>>)
    ensures ValidStamps(rs, step) == {} <==> forall i :: 0 <= i < |rs| ==> !Valid(rs, step, i)
  {
    if i :| 0 <= i < |rs| && Valid(rs, step, i) {
      assert RowOf(rs, step, i).stamp in ValidStamps(rs, step);
    }
  }

  /** The loop collects exactly the dates of the valid records. */
  lemma {:induction false} CollectValidStamps<R, N>(rs: seq<R>, step: R -> Option<Row<N>>)
    ensures Stamps(Collect(rs, step)) == ValidStamps(rs, step)
    decreases |rs|
  {
    if |rs| > 0 {
      var n := |rs| - 1;
      var p := rs[..n];
      CollectValidStamps(p, step);
      ValidPrefix(rs, step, n);
      var vp := ValidStamps(p, step);
      match step(rs[n])
      case None =>
        assert ValidStamps(rs, step) == vp;
      case Some(row) =>
        StampsAppend(Collect(p, step), row);
        assert RowOf(rs, step, n) == row;
        assert ValidStamps(rs, step) == vp + {row.stamp};
    }
  }

  /** Appending records appends the rows they contribute. */
  lemma {:induction false} CollectAppend<R, N>(a: seq<R>, b: seq<R>, step: R -> Option<Row<N>>)
    ensures Collect(a + b, step) == Collect(a, step) + Collect(b, step)
    decreases |b|
  {
    if |b| == 0 {
      assert a + b == a;
    } else {
      var b' := b[..|b| - 1];
      CollectAppend(a, b', step);
      assert (a + b)[..|a + b| - 1] == a + b';
      assert (a + b)[|a + b| - 1] == b[|b| - 1];
    }
  }

  /** A skipped record does not abort the batch: the table is what it would be without it. */
  lemma SkippedRecordIsInert<R, N>(a: seq<R>, x: R, b: seq<R>, step: R -> Option<Row<N>>)
    requires step(x).None?
    ensures Normalise(a + [x] + b, step) == Normalise(a + b, step)
  {
    CollectAppend(a + [x], b, step);
    CollectAppend(a, [x], step);
    CollectAppend(a, b, step);
    assert Collect([x], step) == [] by {
      assert [x][..0] == [];
    }
  }

  // ---------------------------------------------------------------------------
  // Lemmas: keep-first deduplication
  // ---------------------------------------------------------------------------

  /** Appending a record leaves earlier first occurrences alone; the new one is first when its date is new. */
  lemma FirstOfItsDateSnoc<R, N>(rs: seq<R>, step: R -> Option<Row<N>>)
    requires |rs| > 0
    ensures forall i :: 0 <= i < |rs| - 1 ==>
              (FirstOfItsDate(rs, step, i) <==> FirstOfItsDate(rs[..|rs| - 1], step, i))
    ensures FirstOfItsDate(rs, step, |rs| - 1) <==>
              && Valid(rs, step, |rs| - 1)
              && RowOf(rs, step, |rs| - 1).stamp !in ValidStamps(rs[..|rs| - 1], step)
  {
    var n := |rs| - 1;
    var p := rs[..n];
    ValidPrefix(rs, step, n);
    if Valid(rs, step, n) {
      var d := RowOf(rs, step, n).stamp;
      if d in ValidStamps(p, step) {
        var j :| 0 <= j < |p| && Valid(p, step, j) && RowOf(p, step, j).stamp == d;
        assert Valid(rs, step, j) && RowOf(rs, step, j).stamp == d;
      } else {
        forall j | 0 <= j < n && Valid(rs, step, j)
          ensures RowOf(rs, step, j).stamp != d
        {
          assert RowOf(p, step, j).stamp in ValidStamps(p, step);
        }
      }
    }
  }

  /** After the loop and the removal of duplicates, the rows are exactly those of the records first with their date. */
  lemma {:induction false} DedupKeepsFirst<R, N>(rs: seq<R>, step: R -> Option<Row<N>>)
    ensures forall row :: row in DropDuplicateDates(Collect(rs, step)) <==>
              exists i :: FirstOfItsDate(rs, step, i) && RowOf(rs, step, i) == row
    decreases |rs|
  {
    if |rs| > 0 {
      DedupKeepsFirst(rs[..|rs| - 1], step);
      forall row
        ensures row in DropDuplicateDates(Collect(rs, step)) <==>
                exists i :: FirstOfItsDate(rs, step, i) && RowOf(rs, step, i) == row
      {
        if Valid(rs, step, |rs| - 1) {
          DedupKeptRecord(rs, step, row);
        } else {
          DedupSkippedRecord(rs, step, row);
        }
      }
    }
  }

  /** The induction step of `DedupKeepsFirst` when the last record is skipped. */
  lemma DedupSkippedRecord<R, N>(rs: seq<R>, step: R -> Option<Row<N>>, row: Row<N>)
    requires |rs| > 0 && !Valid(rs, step, |rs| - 1)
    requires var p := rs[..|rs| - 1];
             forall row :: row in DropDuplicateDates(Collect(p, step)) <==>
               exists i :: FirstOfItsDate(p, step, i) && RowOf(p, step, i) == row
    ensures row in DropDuplicateDates(Collect(rs, step)) <==>
            exists i :: FirstOfItsDate(rs, step, i) && RowOf(rs, step, i) == row
  {
    var n := |rs| - 1;
    var p := rs[..n];
    FirstOfItsDateSnoc(rs, step);
    ValidPrefix(rs, step, n);
    assert Collect(rs, step) == Collect(p, step);
    if row in DropDuplicateDates(Collect(p, step)) {
      var i :| FirstOfItsDate(p, step, i) && RowOf(p, step, i) == row;
      assert FirstOfItsDate(rs, step, i) && RowOf(rs, step, i) == row;
    }
    if i :| FirstOfItsDate(rs, step, i) && RowOf(rs, step, i) == row {
      assert Valid(rs, step, i);
      assert i < n;
      assert FirstOfItsDate(p, step, i) && RowOf(p, step, i) == row;
    }
  }

  /** The induction step of `DedupKeepsFirst` when the last record yields a row. */
  lemma DedupKeptRecord<R, N>(rs: seq<R>, step: R -> Option<Row<N>>, row: Row<N>)
    requires |rs| > 0 && Valid(rs, step, |rs| - 1)
    requires var p := rs[..|rs| - 1];
             forall row :: row in DropDuplicateDates(Collect(p, step)) <==>
               exists i :: FirstOfItsDate(p, step, i) && RowOf(p, step, i) == row
    ensures row in DropDuplicateDates(Collect(rs, step)) <==>
            exists i :: FirstOfItsDate(rs, step, i) && RowOf(rs, step, i) == row
  {
    var n := |rs| - 1;
    var p := rs[..n];
    FirstOfItsDateSnoc(rs, step);
    ValidPrefix(rs, step, n);
    CollectValidStamps(p, step);
    var cp := Collect(p, step);
    var c := cp + [RowOf(rs, step, n)];
    assert Collect(rs, step) == c;
    assert c[..|c| - 1] == cp;
    if row in DropDuplicateDates(cp) {
      var i :| FirstOfItsDate(p, step, i) && RowOf(p, step, i) == row;
      assert FirstOfItsDate(rs, step, i) && RowOf(rs, step, i) == row;
    }
    if i :| FirstOfItsDate(rs, step, i) && RowOf(rs, step, i) == row {
      if i < n {
        assert FirstOfItsDate(p, step, i) && RowOf(p, step, i) == row;
      }
    }
  }

  /** The table holds exactly the rows of the records first with their date. */
  lemma NormaliseKeepsFirst<R, N>(rs: seq<R>, step: R -> Option<Row<N>>, row: Row<N>)
    ensures row in Normalise(rs, step) <==>
              exists i :: FirstOfItsDate(rs, step, i) && RowOf(rs, step, i) == row
  {
    DedupKeepsFirst(rs, step);
    var rows := Collect(rs, step);
    if |rows| > 0 {
      var unique := DropDuplicateDates(rows);
      assert row in unique <==> exists i :: FirstOfItsDate(rs, step, i) && RowOf(rs, step, i) == row;
      assert row in SortByDate(unique) <==> row in multiset(SortByDate(unique));
      assert row in Normalise(rs, step) <==> row in unique;
    }
  }

  /** Every row of the table is the row of some record. */
  lemma NormaliseRowOrigin<R, N>(rs: seq<R>, step: R -> Option<Row<N>>, k: int)
    requires 0 <= k < |Normalise(rs, step)|
    ensures exists i :: 0 <= i < |rs| && step(rs[i]) == Some(Normalise(rs, step)[k])
  {
    var row := Normalise(rs, step)[k];
    NormaliseKeepsFirst(rs, step, row);
    var i :| FirstOfItsDate(rs, step, i) && RowOf(rs, step, i) == row;
  }
}
