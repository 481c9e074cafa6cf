/**
 `get_min_max(column_name)`: the global `min` and `max` aggregates of one
 column. The aggregates skip nulls and give null on a column with no value;
 the model returns the pair instead of printing it.
 */
module ColumnStats {
  import opened Wrappers
  import opened Table

  /** The integer values of a column in table order; null cells, and cells
      that hold no integer, are skipped. */
  function ColumnValues(rows: seq<Row>, name: string): (xs: seq<int>)
    requires ColumnEverywhere(rows, name)
    ensures |xs| <= |rows|
    ensures forall x :: x in xs <==>
      exists i :: 0 <= i < |rows| && (Lookup(rows[i], name) == Day(x) || Lookup(rows[i], name) == Count(x))
  {
    if rows == [] then []
    else
      var prefix, c := rows[..|rows| - 1], Lookup(rows[|rows| - 1], name);
      assert forall i :: 0 <= i < |prefix| ==> prefix[i] == rows[i];
      ColumnValues(prefix, name) + (if c.Day? then [c.day] else if c.Count? then [c.count] else [])
  }

  /** The smallest and largest of `xs`, or nothing when `xs` is empty. */
  function MinMax(xs: seq<int>): (r: Option<(int, int)>)
    ensures r.None? <==> xs == []
    ensures r.Some? ==> r.value.0 in xs && r.value.1 in xs
    ensures r.Some? ==> forall x :: x in xs ==> r.value.0 <= x <= r.value.1
  {
    if xs == [] then None
    else
      var rest := MinMax(xs[1..]);
      assert forall x :: x in xs <==> x == xs[0] || x in xs[1..];
      match rest
      case None => Some((xs[0], xs[0]))
      case Some((lo, hi)) =>
        Some((if xs[0] < lo then xs[0] else lo, if xs[0] > hi then xs[0] else hi))
  }
}
