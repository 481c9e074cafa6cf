/**
 The `FeatureEngineer` object: it holds the working table and each operation
 replaces it with the transformed table.
 */
module FeatureEngineering {
  import opened Wrappers
  import opened Table
  import opened Comorbidities
  import opened Procedures
  import opened DiagnosisFilter
  import opened FirstVisit
  import opened ColumnStats
  import opened TrainTest

  /** How many rows a preview holds (`display_head`'s default). */
  const PREVIEW_ROWS := 5

  class FeatureEngineer {
    /** The table's non-key column names, and its rows. */
    var columns: set<string>
    var rows: seq<Row>

    ghost predicate Valid()
      reads this
    {
      WellFormed(columns, rows)
    }

    /** Takes over the table a session manager loaded. */
    constructor (columns: set<string>, rows: seq<Row>)
      requires WellFormed(columns, rows)
      ensures Valid()
      ensures this.columns == columns && this.rows == rows
    {
      this.columns := columns;
      this.rows := rows;
    }

    /** `add_comorbidities_array`. */
    method AddComorbiditiesArray()
      requires Valid()
      modifies this
      ensures Valid()
      ensures columns == old(columns) + {PREVIOUS_COMORBIDITIES}
      ensures rows == WithComorbidities(old(rows))
    {
      var rows' := WithComorbidities(rows);
      ExtendsTableWellFormed(columns, rows, rows', {PREVIOUS_COMORBIDITIES});
      columns := columns + {PREVIOUS_COMORBIDITIES};
      rows := rows';
    }

    /** `add_procedure_array(procedure_column, date_column)`; a column the
        table lacks fails the call and leaves the table as it was. */
    method AddProcedureArray(procedureColumn: string, dateColumn: string) returns (r: Result<()>)
      requires Valid()
      modifies this
      ensures Valid()
      ensures r.Ok? <==> InSchema(old(columns), procedureColumn) && InSchema(old(columns), dateColumn)
      ensures !InSchema(old(columns), procedureColumn) ==> r == MissingColumn(procedureColumn)
      ensures InSchema(old(columns), procedureColumn) && !InSchema(old(columns), dateColumn) ==>
        r == MissingColumn(dateColumn)
      ensures r.MissingColumn? ==> columns == old(columns) && rows == old(rows)
      ensures r.Ok? ==> columns == old(columns) + PROCEDURE_ARRAY_COLUMNS
      ensures r.Ok? ==> HasProcedureColumns(old(rows), procedureColumn, dateColumn)
      ensures r.Ok? ==> rows == WithProcedureArray(old(rows), procedureColumn, dateColumn)
    {
      if !InSchema(columns, procedureColumn) {
        return MissingColumn(procedureColumn);
      }
      if !InSchema(columns, dateColumn) {
        return MissingColumn(dateColumn);
      }
      SchemaColumnEverywhere(columns, rows, procedureColumn);
      SchemaColumnEverywhere(columns, rows, dateColumn);
      var rows' := WithProcedureArray(rows, procedureColumn, dateColumn);
      ExtendsTableWellFormed(columns, rows, rows', PROCEDURE_ARRAY_COLUMNS);
      columns := columns + PROCEDURE_ARRAY_COLUMNS;
      rows := rows';
      return Ok(());
    }

    /** `remove_diagnosis_codes(diagnosis_list)`: the schema stays, the rows
        are regrouped and never grow in number. */
    method RemoveDiagnosisCodes(excluded: seq<string>)
      requires Valid()
      modifies this
      ensures Valid()
      ensures columns == old(columns)
      ensures rows == WithoutDiagnosisCodes(old(rows), excluded)
      ensures |rows| <= |old(rows)|
    {
      KeepsSchema(columns, rows, excluded);
      rows := WithoutDiagnosisCodes(rows, excluded);
    }

    /** `calculate_first_visit_and_duration`. */
    method CalculateFirstVisitAndDuration()
      requires Valid()
      modifies this
      ensures Valid()
      ensures columns == old(columns) + {FIRST_VISIT_DATE, DAYS_SINCE_FIRST_VISIT}
      ensures rows == WithFirstVisit(old(rows))
    {
      var rows' := WithFirstVisit(rows);
      ExtendsTableWellFormed(columns, rows, rows', {FIRST_VISIT_DATE, DAYS_SINCE_FIRST_VISIT});
      columns := columns + {FIRST_VISIT_DATE, DAYS_SINCE_FIRST_VISIT};
      rows := rows';
    }

    /** `get_min_max(column_name)`: the column's least and greatest value,
        none when it holds no value; the table is not changed. */
    method GetMinMax(name: string) returns (r: Result<Option<(int, int)>>)
      requires Valid()
      ensures !InSchema(columns, name) ==> r == MissingColumn(name)
      ensures InSchema(columns, name) ==> ColumnEverywhere(rows, name) && r == Ok(MinMax(ColumnValues(rows, name)))
    {
      if !InSchema(columns, name) {
        return MissingColumn(name);
      }
      SchemaColumnEverywhere(columns, rows, name);
      return Ok(MinMax(ColumnValues(rows, name)));
    }

    /** `add_train_test_indicator` given the sampled test patients; returns
        the preview `display_head` makes of the labelled table. */
    method AddTrainTestIndicator(testIds: seq<string>) returns (head: seq<Row>)
      requires Valid()
      modifies this
      ensures Valid()
      ensures columns == old(columns) + {TRAIN_TEST}
      ensures rows == WithTrainTest(old(rows), testIds)
      ensures head == rows[..if |rows| < PREVIEW_ROWS then |rows| else PREVIEW_ROWS]
    {
      var rows' := WithTrainTest(rows, testIds);
      ExtendsTableWellFormed(columns, rows, rows', {TRAIN_TEST});
      columns := columns + {TRAIN_TEST};
      rows := rows';
      head := rows[..if |rows| < PREVIEW_ROWS then |rows| else PREVIEW_ROWS];
    }
  }
}
