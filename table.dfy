/**
 The working table of the feature pipeline: a schema (the set of column
 names besides the three key columns) and a sequence of claim rows.
 */
module Table {

  const PATIENT_ID := "patient_id"
  const CLAIM_DATE := "claim_statement_from_date"
  const DIAGNOSIS_CODES := "claim_all_diagnosis_codes"

  const PREVIOUS_COMORBIDITIES := "previous_comorbidities"
  const FILTERED_PROCEDURE := "filtered_procedure"
  const FILTERED_DATE := "filtered_date"
  const PROCEDURE_DATE_MAP := "procedure_date_map"
  const UPDATED_PROCEDURE_DATE_MAP := "updated_procedure_date_map"
  const FIRST_VISIT_DATE := "first_visit_date"
  const DAYS_SINCE_FIRST_VISIT := "days_since_first_visit"
  const TRAIN_TEST := "train_test"

  /** One element of `claim_all_diagnosis_codes`: a record whose
      `diagnosis_code` field is what filters look at, plus its other fields. */
  datatype Diagnosis = Diagnosis(code: string, details: seq<string>)

  /** The value held by one cell of a non-key column. */
  datatype Cell =
    | Null
    | Text(text: string)
    | Day(day: int)                     // a date, as a day number
    | Count(count: int)                 // an integer such as a day difference
    | Codes(codes: seq<Diagnosis>)      // an array of diagnosis records
    | DateMap(dates: map<string, int>)  // a map from procedure code to date

  /** A claim: the patient, the claim's start date as a day number, its
      diagnosis records, and the cells of every other column by name. */
  datatype Row = Row(patient: string, date: int, diagnoses: seq<Diagnosis>, cols: map<string, Cell>)

  predicate IsKeyColumn(name: string)
  {
    name == PATIENT_ID || name == CLAIM_DATE || name == DIAGNOSIS_CODES
  }

  /** Every row carries exactly the schema's columns, and the schema does
      not shadow a key column. */
  predicate WellFormed(columns: set<string>, rows: seq<Row>)
  {
    && PATIENT_ID !in columns && CLAIM_DATE !in columns && DIAGNOSIS_CODES !in columns
    && forall i :: 0 <= i < |rows| ==> rows[i].cols.Keys == columns
  }

  predicate InSchema(columns: set<string>, name: string)
  {
    IsKeyColumn(name) || name in columns
  }

  predicate HasColumn(r: Row, name: string)
  {
    IsKeyColumn(name) || name in r.cols
  }

  /** Every row of the table can resolve the column `name`. */
  predicate ColumnEverywhere(rows: seq<Row>, name: string)
  {
    forall i :: 0 <= i < |rows| ==> HasColumn(rows[i], name)
  }

  lemma SchemaColumnEverywhere(columns: set<string>, rows: seq<Row>, name: string)
    requires WellFormed(columns, rows) && InSchema(columns, name)
    ensures ColumnEverywhere(rows, name)
  {
  }

  /** The cell of column `name` in row `r`; key columns are read from the
      row's own fields. */
  function Lookup(r: Row, name: string): (c: Cell)
    requires HasColumn(r, name)
    ensures name == CLAIM_DATE ==> c == Day(r.date)
    ensures !IsKeyColumn(name) ==> c == r.cols[name]
  {
    if name == PATIENT_ID then Text(r.patient)
    else if name == CLAIM_DATE then Day(r.date)
    else if name == DIAGNOSIS_CODES then Codes(r.diagnoses)
    else r.cols[name]
  }

  /** `withColumn`: set (add or replace) one non-key column of a row. */
  function WithCell(r: Row, name: string, c: Cell): (r': Row)
    ensures r'.patient == r.patient && r'.date == r.date && r'.diagnoses == r.diagnoses
    ensures r'.cols.Keys == r.cols.Keys + {name}
    ensures r'.cols[name] == c
    ensures forall other :: other in r.cols && other != name ==> r'.cols[other] == r.cols[other]
  {
    r.(cols := r.cols[name := c])
  }

  /** `r'` is `r` with exactly the columns `added` set or replaced: the key
      columns, the other existing columns, and their cells are unchanged. */
  predicate ExtendsRow(r: Row, r': Row, added: set<string>)
  {
    && r'.patient == r.patient && r'.date == r.date && r'.diagnoses == r.diagnoses
    && r'.cols.Keys == r.cols.Keys + added
    && forall c :: c in r.cols && c !in added ==> r'.cols[c] == r.cols[c]
  }

  /** A table-wide form of `ExtendsRow`: same number of rows, in the same
      order, each only gaining the columns `added`. */
  predicate ExtendsTable(rows: seq<Row>, rows': seq<Row>, added: set<string>)
  {
    |rows'| == |rows| && forall i :: 0 <= i < |rows| ==> ExtendsRow(rows[i], rows'[i], added)
  }

  lemma ExtendsTableWellFormed(columns: set<string>, rows: seq<Row>, rows': seq<Row>, added: set<string>)
    requires WellFormed(columns, rows) && ExtendsTable(rows, rows', added)
    requires forall c :: c in added ==> !IsKeyColumn(c)
    ensures WellFormed(columns + added, rows')
  {
    forall i | 0 <= i < |rows'|
      ensures rows'[i].cols.Keys == columns + added
    {
      assert ExtendsRow(rows[i], rows'[i], added);
    }
  }
}
