/**
 A worked example: patient A with claims on 2020-01-01 (codes D1),
 2020-02-01 (D2) and 2020-03-01 (D1, D3), dated as days since 2020-01-01.
 */
module Scenario {
  import opened Table
  import opened Window
  import opened Comorbidities
  import opened FirstVisit

  const D1 := Diagnosis("D1", [])
  const D2 := Diagnosis("D2", [])
  const D3 := Diagnosis("D3", [])

  function Claims(): (rows: seq<Row>)
    ensures |rows| == 3
  {
    [Row("A", 0, [D1], map[]), Row("A", 31, [D2], map[]), Row("A", 60, [D1, D3], map[])]
  }

  /** The third claim's history is {D1, D2}. */
  lemma ThirdClaimHistory()
    ensures forall d :: d in PreviousComorbidities(Claims(), 2) <==> d == D1 || d == D2
  {
    var rows := Claims();
    assert Before(rows, 0, 2) && D1 in rows[0].diagnoses;
    assert Before(rows, 1, 2) && D2 in rows[1].diagnoses;
    forall d | d in PreviousComorbidities(rows, 2) ensures d == D1 || d == D2 {
      var j :| 0 <= j < |rows| && Before(rows, j, 2) && d in rows[j].diagnoses;
      assert j == 0 || j == 1;
    }
  }

  /** The first claim has no history. */
  lemma FirstClaimHistory()
    ensures PreviousComorbidities(Claims(), 0) == []
  {
    var rows := Claims();
    assert forall j :: 0 <= j < |rows| ==> !Before(rows, j, 0);
  }

  /** The third claim lies 60 days after the first visit. */
  lemma ThirdClaimDuration()
    ensures DaysSinceFirstVisit(Claims(), 2) == 60
  {
    var rows := Claims();
    FirstVisitIsEarliest(rows, 2);
    assert rows[0].patient == rows[2].patient;
  }
}
