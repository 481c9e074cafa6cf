/**
 The labelling half of `add_train_test_indicator`: every row whose patient is
 in the sampled test list is labelled `'test'`, every other row `'train'`.
 The sample itself is an input here.
 */
module TrainTest {
  import opened Table

  const TEST := "test"
  const TRAIN := "train"

  /** `when(col('patient_id').isin(testIds), 'test').otherwise('train')`. */
  function Label(testIds: seq<string>, patient: string): (c: Cell)
    ensures c == Text(TEST) <==> patient in testIds
    ensures c == Text(TRAIN) <==> patient !in testIds
  {
    if patient in testIds then Text(TEST) else Text(TRAIN)
  }

  /** The table after labelling: each row gains `train_test`, the label of
      its patient, so no patient's rows are split across the two labels. */
  function WithTrainTest(rows: seq<Row>, testIds: seq<string>): (rows': seq<Row>)
    ensures ExtendsTable(rows, rows', {TRAIN_TEST})
    ensures forall i :: 0 <= i < |rows| ==>
      (rows'[i].cols[TRAIN_TEST] == Text(TEST) <==> rows[i].patient in testIds)
    ensures forall i :: 0 <= i < |rows| ==>
      (rows'[i].cols[TRAIN_TEST] == Text(TRAIN) <==> rows[i].patient !in testIds)
    ensures forall i, j :: 0 <= i < |rows| && 0 <= j < |rows| && rows[i].patient == rows[j].patient ==>
      rows'[i].cols[TRAIN_TEST] == rows'[j].cols[TRAIN_TEST]
  {
    seq(|rows|, i requires 0 <= i < |rows| => WithCell(rows[i], TRAIN_TEST, Label(testIds, rows[i].patient)))
  }
}
