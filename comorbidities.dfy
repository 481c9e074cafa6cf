/**
 `add_comorbidities_array`: each claim gets `previous_comorbidities`, the
 distinct diagnosis records of the same patient's strictly earlier claims,
 computed as `array_distinct(flatten(collect_list(...)))` over the window.
 */
module Comorbidities {
  import opened Table
  import opened Collections
  import opened Window

  /** `flatten(collect_list('claim_all_diagnosis_codes'))` over the rows `s`,
      in the order of `s`. The diagnosis column is never null, so no list is
      skipped. */
  function Flatten(rows: seq<Row>, s: seq<int>): (r: seq<Diagnosis>)
    requires IsIndexSeq(rows, s)
    ensures forall d :: d in r <==> exists n :: 0 <= n < |s| && d in rows[s[n]].diagnoses
  {
    if s == [] then []
    else
      var tail := Flatten(rows, s[1..]);
      assert forall n :: 1 <= n < |s| ==> s[1..][n - 1] == s[n];
      rows[s[0]].diagnoses + tail
  }

  /** The `previous_comorbidities` value of row `i`. */
  function PreviousComorbidities(rows: seq<Row>, i: int): (r: seq<Diagnosis>)
    requires 0 <= i < |rows|
    ensures NoDup(r)
    ensures forall d :: d in r <==> exists j :: 0 <= j < |rows| && Before(rows, j, i) && d in rows[j].diagnoses
    ensures (forall j :: 0 <= j < |rows| ==> !Before(rows, j, i)) ==> r == []
  {
    var f := Frame(rows, i);
    var r := Dedup(Flatten(rows, f));
    assert forall n :: 0 <= n < |f| ==> f[n] in f;
    assert forall j :: j in f ==> exists n :: 0 <= n < |f| && f[n] == j;
    assert r != [] ==> r[0] in r;
    r
  }

  /** The table after `add_comorbidities_array`. */
  function WithComorbidities(rows: seq<Row>): (rows': seq<Row>)
    ensures ExtendsTable(rows, rows', {PREVIOUS_COMORBIDITIES})
    ensures forall i :: 0 <= i < |rows| ==>
      rows'[i].cols[PREVIOUS_COMORBIDITIES] == Codes(PreviousComorbidities(rows, i))
  {
    seq(|rows|, i requires 0 <= i < |rows| =>
      WithCell(rows[i], PREVIOUS_COMORBIDITIES, Codes(PreviousComorbidities(rows, i))))
  }

  /** The history only grows along a patient's claims: everything recorded
      before claim `j` is still recorded before any later claim `i`, together
      with `j`'s own diagnoses. */
  lemma {:induction false} HistoryAccumulates(rows: seq<Row>, j: int, i: int)
    requires 0 <= j < |rows| && 0 <= i < |rows| && Before(rows, j, i)
    ensures forall d :: d in PreviousComorbidities(rows, j) ==> d in PreviousComorbidities(rows, i)
    ensures forall d :: d in rows[j].diagnoses ==> d in PreviousComorbidities(rows, i)
  {
    forall d | d in PreviousComorbidities(rows, j)
      ensures d in PreviousComorbidities(rows, i)
    {
      var k :| 0 <= k < |rows| && Before(rows, k, j) && d in rows[k].diagnoses;
      assert Before(rows, k, i);
    }
  }
}
