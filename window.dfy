/**
 The window `partitionBy('patient_id').orderBy('claim_statement_from_date')`
 with frame `rowsBetween(unboundedPreceding, -1)`. The engine leaves the order
 of same-date rows open; this model breaks ties by the rows' position in the
 table, so the window order is a strict total order on each patient's rows.
 */
module Window {
  import opened Table

  /** Row `a` comes before row `b` in window order (ignoring the patient). */
  predicate Precedes(rows: seq<Row>, a: int, b: int)
    requires 0 <= a < |rows| && 0 <= b < |rows|
  {
    rows[a].date < rows[b].date || (rows[a].date == rows[b].date && a < b)
  }

  /** Row `j` lies in the strictly-earlier frame of row `i`. */
  predicate Before(rows: seq<Row>, j: int, i: int)
    requires 0 <= j < |rows| && 0 <= i < |rows|
  {
    rows[j].patient == rows[i].patient && Precedes(rows, j, i)
  }

  predicate IsIndexSeq(rows: seq<Row>, s: seq<int>)
  {
    forall n :: 0 <= n < |s| ==> 0 <= s[n] < |rows|
  }

  /** `s` lists row indices strictly increasing in window order. */
  predicate InWindowOrder(rows: seq<Row>, s: seq<int>)
  {
    IsIndexSeq(rows, s) && forall a, b :: 0 <= a < b < |s| ==> Precedes(rows, s[a], s[b])
  }

  /** Insert index `x` into window-ordered `s`. */
  function Insert(rows: seq<Row>, x: int, s: seq<int>): (r: seq<int>)
    requires 0 <= x < |rows| && InWindowOrder(rows, s) && x !in s
    ensures InWindowOrder(rows, r)
    ensures forall y :: y in r <==> y == x || y in s
  {
    if s == [] then [x]
    else if Precedes(rows, x, s[0]) then [x] + s
    else
      var tail := Insert(rows, x, s[1..]);
      assert forall y :: y in s <==> y == s[0] || y in s[1..];
      assert forall b :: 0 <= b < |tail| ==> Precedes(rows, s[0], tail[b]) by {
        forall b | 0 <= b < |tail| ensures Precedes(rows, s[0], tail[b]) {
          if tail[b] != x {
            assert tail[b] in tail && tail[b] in s[1..];
            var c :| 0 <= c < |s[1..]| && s[1..][c] == tail[b];
            assert s[c + 1] == tail[b];
          }
        }
      }
      [s[0]] + tail
  }

  /** Insertion sort of distinct row indices into window order. */
  function SortWindow(rows: seq<Row>, s: seq<int>): (r: seq<int>)
    requires IsIndexSeq(rows, s)
    requires forall a, b :: 0 <= a < b < |s| ==> s[a] != s[b]
    ensures InWindowOrder(rows, r)
    ensures forall y :: y in r <==> y in s
  {
    if s == [] then []
    else
      assert forall y :: y in s <==> y == s[0] || y in s[1..];
      Insert(rows, s[0], SortWindow(rows, s[1..]))
  }

  /** The rows among the first `n` that lie in row `i`'s frame, by position. */
  function EarlierRows(rows: seq<Row>, i: int, n: int): (r: seq<int>)
    requires 0 <= i < |rows| && 0 <= n <= |rows|
    ensures IsIndexSeq(rows, r)
    ensures forall a, b :: 0 <= a < b < |r| ==> r[a] < r[b]
    ensures forall j :: j in r <==> 0 <= j < n && Before(rows, j, i)
  {
    if n == 0 then []
    else
      var prev := EarlierRows(rows, i, n - 1);
      assert forall a :: 0 <= a < |prev| ==> prev[a] in prev;
      if Before(rows, n - 1, i) then prev + [n - 1] else prev
  }

  /** Row `i`'s frame: the same patient's strictly earlier rows, in window
      order. */
  function Frame(rows: seq<Row>, i: int): (f: seq<int>)
    requires 0 <= i < |rows|
    ensures InWindowOrder(rows, f)
    ensures forall j :: j in f <==> 0 <= j < |rows| && Before(rows, j, i)
  {
    SortWindow(rows, EarlierRows(rows, i, |rows|))
  }

  /** `rows'` agrees with `rows` on every row's patient and date. */
  predicate SameOrderKeys(rows: seq<Row>, rows': seq<Row>)
  {
    |rows'| == |rows| && forall j :: 0 <= j < |rows| ==> rows'[j].patient == rows[j].patient && rows'[j].date == rows[j].date
  }

  lemma {:induction false} InsertSameOrderKeys(rows: seq<Row>, rows': seq<Row>, x: int, s: seq<int>)
    requires SameOrderKeys(rows, rows')
    requires 0 <= x < |rows| && InWindowOrder(rows, s) && InWindowOrder(rows', s) && x !in s
    ensures Insert(rows, x, s) == Insert(rows', x, s)
  {
    if s != [] && !Precedes(rows, x, s[0]) {
      InsertSameOrderKeys(rows, rows', x, s[1..]);
    }
  }

  lemma {:induction false} SortWindowSameOrderKeys(rows: seq<Row>, rows': seq<Row>, s: seq<int>)
    requires SameOrderKeys(rows, rows')
    requires IsIndexSeq(rows, s) && forall a, b :: 0 <= a < b < |s| ==> s[a] != s[b]
    ensures SortWindow(rows, s) == SortWindow(rows', s)
  {
    if s != [] {
      SortWindowSameOrderKeys(rows, rows', s[1..]);
      assert forall y :: y in s <==> y == s[0] || y in s[1..];
      InsertSameOrderKeys(rows, rows', s[0], SortWindow(rows, s[1..]));
    }
  }

  lemma {:induction false} EarlierRowsSameOrderKeys(rows: seq<Row>, rows': seq<Row>, i: int, n: int)
    requires SameOrderKeys(rows, rows') && 0 <= i < |rows| && 0 <= n <= |rows|
    ensures EarlierRows(rows, i, n) == EarlierRows(rows', i, n)
  {
    if n > 0 {
      EarlierRowsSameOrderKeys(rows, rows', i, n - 1);
    }
  }

  /** A frame depends only on the rows' patients and dates, so adding or
      changing other columns leaves every frame as it was. */
  lemma FrameSameOrderKeys(rows: seq<Row>, rows': seq<Row>, i: int)
    requires SameOrderKeys(rows, rows') && 0 <= i < |rows|
    ensures Frame(rows, i) == Frame(rows', i)
  {
    EarlierRowsSameOrderKeys(rows, rows', i, |rows|);
    SortWindowSameOrderKeys(rows, rows', EarlierRows(rows, i, |rows|));
  }
}
