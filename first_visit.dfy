/**
 `calculate_first_visit_and_duration`: `first_visit_date` is
 `first('claim_statement_from_date')` over the window partitioned by patient
 and ordered by date (default frame: the start of the partition up to the
 current row), and `days_since_first_visit` is `datediff` of the row's own
 date and that first date.
 */
module FirstVisit {
  import opened Table
  import opened Window

  /** The value `first` picks: the date of the first row of row `i`'s
      window, which is the head of its strictly-earlier frame, or the row
      itself when nothing precedes it. */
  function FirstVisitDate(rows: seq<Row>, i: int): (d: int)
    requires 0 <= i < |rows|
    ensures d <= rows[i].date
  {
    var f := Frame(rows, i);
    assert f != [] ==> f[0] in f;
    if f == [] then rows[i].date else rows[f[0]].date
  }

  /** `datediff(end, start)`: whole days from `start` to `end`. */
  function DateDiff(end: int, start: int): (n: int)
    ensures start + n == end
  {
    end - start
  }

  /** The first-visit date is the earliest date among the patient's claims,
      and it is the date of one of them. */
  lemma FirstVisitIsEarliest(rows: seq<Row>, i: int)
    requires 0 <= i < |rows|
    ensures exists j :: 0 <= j < |rows| && rows[j].patient == rows[i].patient && rows[j].date == FirstVisitDate(rows, i)
    ensures forall j :: 0 <= j < |rows| && rows[j].patient == rows[i].patient ==> FirstVisitDate(rows, i) <= rows[j].date
  {
    var f := Frame(rows, i);
    if f == [] {
      forall j | 0 <= j < |rows| && rows[j].patient == rows[i].patient
        ensures rows[i].date <= rows[j].date
      {
        assert j !in f;
      }
    } else {
      assert f[0] in f;
      forall j | 0 <= j < |rows| && rows[j].patient == rows[i].patient
        ensures rows[f[0]].date <= rows[j].date
      {
        if Before(rows, j, i) {
          assert j in f;
          var n :| 0 <= n < |f| && f[n] == j;
          assert n == 0 || Precedes(rows, f[0], f[n]);
        }
      }
    }
  }

  /** Rows of one patient all get the same first-visit date. */
  lemma FirstVisitPerPatient(rows: seq<Row>, i: int, j: int)
    requires 0 <= i < |rows| && 0 <= j < |rows| && rows[i].patient == rows[j].patient
    ensures FirstVisitDate(rows, i) == FirstVisitDate(rows, j)
  {
    FirstVisitIsEarliest(rows, i);
    FirstVisitIsEarliest(rows, j);
  }

  /** The `days_since_first_visit` value of row `i`: never negative, and zero
      exactly on the rows dated on the patient's earliest date. */
  function DaysSinceFirstVisit(rows: seq<Row>, i: int): (n: int)
    requires 0 <= i < |rows|
    ensures n >= 0
    ensures n == 0 <==> forall j :: 0 <= j < |rows| && rows[j].patient == rows[i].patient ==> rows[i].date <= rows[j].date
  {
    FirstVisitIsEarliest(rows, i);
    DateDiff(rows[i].date, FirstVisitDate(rows, i))
  }

  /** Row `i` with its two new cells. */
  function FirstVisitRow(rows: seq<Row>, i: int): (r: Row)
    requires 0 <= i < |rows|
    ensures ExtendsRow(rows[i], r, {FIRST_VISIT_DATE, DAYS_SINCE_FIRST_VISIT})
    ensures r.cols[FIRST_VISIT_DATE] == Day(FirstVisitDate(rows, i))
    ensures r.cols[DAYS_SINCE_FIRST_VISIT] == Count(DaysSinceFirstVisit(rows, i))
  {
    WithCell(WithCell(rows[i], FIRST_VISIT_DATE, Day(FirstVisitDate(rows, i))),
             DAYS_SINCE_FIRST_VISIT, Count(DaysSinceFirstVisit(rows, i)))
  }

  /** The table after `calculate_first_visit_and_duration`; an existing
      column of either name is replaced, as `withColumn` does. */
  function WithFirstVisit(rows: seq<Row>): (rows': seq<Row>)
    ensures ExtendsTable(rows, rows', {FIRST_VISIT_DATE, DAYS_SINCE_FIRST_VISIT})
    ensures forall i :: 0 <= i < |rows| ==> rows'[i] == FirstVisitRow(rows, i)
  {
    seq(|rows|, i requires 0 <= i < |rows| => FirstVisitRow(rows, i))
  }
}
