/**
 `remove_diagnosis_codes(diagnosis_list)`: explode `claim_all_diagnosis_codes`
 into one row per record, drop the records whose `diagnosis_code` is listed,
 then group by every other column and collect the remaining records back
 into a list. The engine fixes neither the order of the groups nor the order
 inside a collected list; this model takes both in table order.
 */
module DiagnosisFilter {
  import opened Table
  import opened Collections

  /** The columns `groupBy` groups on: all but `claim_all_diagnosis_codes`. */
  datatype GroupKey = GroupKey(patient: string, date: int, cols: map<string, Cell>)

  function KeyOf(r: Row): (k: GroupKey)
  {
    GroupKey(r.patient, r.date, r.cols)
  }

  /** The exploded records of one row that pass the filter, in order. */
  function Surviving(ds: seq<Diagnosis>, excluded: seq<string>): (r: seq<Diagnosis>)
    ensures forall d :: d in r <==> d in ds && d.code !in excluded
  {
    if ds == [] then []
    else
      assert forall d :: d in ds <==> d == ds[0] || d in ds[1..];
      (if ds[0].code in excluded then [] else [ds[0]]) + Surviving(ds[1..], excluded)
  }

  /** The filter keeps every copy of a record whose code is not listed and
      no copy of one whose code is. */
  lemma {:induction false} SurvivingKeepsCopies(ds: seq<Diagnosis>, excluded: seq<string>)
    ensures forall d :: multiset(Surviving(ds, excluded))[d] == if d.code in excluded then 0 else multiset(ds)[d]
  {
    if ds != [] {
      SurvivingKeepsCopies(ds[1..], excluded);
      assert ds == [ds[0]] + ds[1..];
    }
  }

  /** The grouping keys of the rows that keep at least one record, in table
      order (with repeats). */
  function SurvivingKeys(rows: seq<Row>, excluded: seq<string>): (ks: seq<GroupKey>)
    ensures |ks| <= |rows|
    ensures forall k :: k in ks <==>
      (exists i :: 0 <= i < |rows| && KeyOf(rows[i]) == k && Surviving(rows[i].diagnoses, excluded) != [])
  {
    if rows == [] then []
    else
      var prefix, last := rows[..|rows| - 1], rows[|rows| - 1];
      var ks := SurvivingKeys(prefix, excluded);
      assert forall i :: 0 <= i < |prefix| ==> prefix[i] == rows[i];
      if Surviving(last.diagnoses, excluded) != [] then ks + [KeyOf(last)] else ks
  }

  /** How many copies of `d` the rows whose other columns equal `k` hold
      between them; none when `d`'s code is excluded. */
  function Copies(rows: seq<Row>, excluded: seq<string>, k: GroupKey, d: Diagnosis): (n: nat)
    ensures d.code in excluded ==> n == 0
  {
    if rows == [] || d.code in excluded then 0
    else
      var last := rows[|rows| - 1];
      Copies(rows[..|rows| - 1], excluded, k, d) + (if KeyOf(last) == k then multiset(last.diagnoses)[d] else 0)
  }

  /** `collect_list` of one group: the surviving records of every row whose
      other columns equal `k`, in table order. */
  function Gathered(rows: seq<Row>, excluded: seq<string>, k: GroupKey): (ds: seq<Diagnosis>)
    ensures forall d :: d in ds <==>
      (exists i :: 0 <= i < |rows| && KeyOf(rows[i]) == k && d in rows[i].diagnoses && d.code !in excluded)
    ensures forall d :: multiset(ds)[d] == Copies(rows, excluded, k, d)
  {
    if rows == [] then []
    else
      var prefix, last := rows[..|rows| - 1], rows[|rows| - 1];
      var ds := Gathered(prefix, excluded, k);
      assert forall i :: 0 <= i < |prefix| ==> prefix[i] == rows[i];
      SurvivingKeepsCopies(last.diagnoses, excluded);
      if KeyOf(last) == k then ds + Surviving(last.diagnoses, excluded) else ds
  }

  /** The table after `remove_diagnosis_codes(excluded)`: one row per distinct
      combination of the other columns that keeps at least one record. */
  function WithoutDiagnosisCodes(rows: seq<Row>, excluded: seq<string>): (rows': seq<Row>)
    ensures |rows'| <= |rows|
  {
    var groups := Dedup(SurvivingKeys(rows, excluded));
    seq(|groups|, n requires 0 <= n < |groups| =>
      var k := groups[n];
      Row(k.patient, k.date, Gathered(rows, excluded, k), k.cols))
  }

  /** No record with an excluded code is left, and no row is left empty. */
  lemma NoExcludedCodeRemains(rows: seq<Row>, excluded: seq<string>)
    ensures var rows' := WithoutDiagnosisCodes(rows, excluded);
      && (forall n, d :: 0 <= n < |rows'| && d in rows'[n].diagnoses ==> d.code !in excluded)
      && (forall n :: 0 <= n < |rows'| ==> rows'[n].diagnoses != [])
  {
    var rows' := WithoutDiagnosisCodes(rows, excluded);
    var groups := Dedup(SurvivingKeys(rows, excluded));
    forall n | 0 <= n < |rows'| ensures rows'[n].diagnoses != [] {
      assert groups[n] in groups;
      var i :| 0 <= i < |rows| && KeyOf(rows[i]) == groups[n] && Surviving(rows[i].diagnoses, excluded) != [];
      var d := Surviving(rows[i].diagnoses, excluded)[0];
      assert d in rows'[n].diagnoses;
    }
  }

  /** Every record left in an output row comes from an input row that agrees
      with it on every other column; conversely every record that passes the
      filter is left in the output row for its input row's other columns. */
  lemma EntriesKeepTheirRows(rows: seq<Row>, excluded: seq<string>)
    ensures var rows' := WithoutDiagnosisCodes(rows, excluded);
      && (forall n, d :: 0 <= n < |rows'| && d in rows'[n].diagnoses ==>
            exists i :: 0 <= i < |rows| && KeyOf(rows[i]) == KeyOf(rows'[n]) && d in rows[i].diagnoses)
      && (forall i, d :: 0 <= i < |rows| && d in rows[i].diagnoses && d.code !in excluded ==>
            exists n :: 0 <= n < |rows'| && KeyOf(rows'[n]) == KeyOf(rows[i]) && d in rows'[n].diagnoses)
  {
    var rows' := WithoutDiagnosisCodes(rows, excluded);
    var groups := Dedup(SurvivingKeys(rows, excluded));
    forall i, d | 0 <= i < |rows| && d in rows[i].diagnoses && d.code !in excluded
      ensures exists n :: 0 <= n < |rows'| && KeyOf(rows'[n]) == KeyOf(rows[i]) && d in rows'[n].diagnoses
    {
      assert d in Surviving(rows[i].diagnoses, excluded);
      assert KeyOf(rows[i]) in groups;
      var n :| 0 <= n < |groups| && groups[n] == KeyOf(rows[i]);
      assert KeyOf(rows'[n]) == KeyOf(rows[i]);
    }
  }

  /** Each output row holds every surviving copy of every record of its
      group, duplicates included: `collect_list` drops nothing. */
  lemma OutputKeepsCopies(rows: seq<Row>, excluded: seq<string>)
    ensures var rows' := WithoutDiagnosisCodes(rows, excluded);
      forall n, d :: 0 <= n < |rows'| ==> multiset(rows'[n].diagnoses)[d] == Copies(rows, excluded, KeyOf(rows'[n]), d)
  {
    var rows' := WithoutDiagnosisCodes(rows, excluded);
    var groups := Dedup(SurvivingKeys(rows, excluded));
    assert forall n :: 0 <= n < |rows'| ==> KeyOf(rows'[n]) == groups[n] && rows'[n].diagnoses == Gathered(rows, excluded, groups[n]);
  }

  /** Some output row has the other columns `k`. */
  ghost predicate HasGroup(rows': seq<Row>, k: GroupKey)
  {
    exists n :: 0 <= n < |rows'| && KeyOf(rows'[n]) == k
  }

  /** Some input row with the other columns `k` keeps a record. */
  ghost predicate KeepsRecord(rows: seq<Row>, excluded: seq<string>, k: GroupKey)
  {
    exists i, d :: 0 <= i < |rows| && KeyOf(rows[i]) == k && d in rows[i].diagnoses && d.code !in excluded
  }

  /** Rows that agree on every other column are merged: no two output rows
      agree on them. An output row exists for a combination of the other
      columns exactly when some input row with it keeps a record. */
  lemma GroupsAreDistinct(rows: seq<Row>, excluded: seq<string>)
    ensures var rows' := WithoutDiagnosisCodes(rows, excluded);
      && (forall a, b :: 0 <= a < b < |rows'| ==> KeyOf(rows'[a]) != KeyOf(rows'[b]))
      && (forall k :: HasGroup(rows', k) <==> KeepsRecord(rows, excluded, k))
  {
    var rows' := WithoutDiagnosisCodes(rows, excluded);
    var groups := Dedup(SurvivingKeys(rows, excluded));
    assert forall n :: 0 <= n < |rows'| ==> KeyOf(rows'[n]) == groups[n];
    forall k | KeepsRecord(rows, excluded, k) ensures HasGroup(rows', k) {
      var i, d :| 0 <= i < |rows| && KeyOf(rows[i]) == k && d in rows[i].diagnoses && d.code !in excluded;
      assert d in Surviving(rows[i].diagnoses, excluded);
      assert k in groups;
    }
    forall k | HasGroup(rows', k) ensures KeepsRecord(rows, excluded, k) {
      var n :| 0 <= n < |rows'| && KeyOf(rows'[n]) == k;
      assert groups[n] in groups;
      var i :| 0 <= i < |rows| && KeyOf(rows[i]) == k && Surviving(rows[i].diagnoses, excluded) != [];
      assert Surviving(rows[i].diagnoses, excluded)[0] in Surviving(rows[i].diagnoses, excluded);
    }
  }

  /** The output keeps the input's schema. */
  lemma KeepsSchema(columns: set<string>, rows: seq<Row>, excluded: seq<string>)
    requires WellFormed(columns, rows)
    ensures WellFormed(columns, WithoutDiagnosisCodes(rows, excluded))
  {
    var rows' := WithoutDiagnosisCodes(rows, excluded);
    var groups := Dedup(SurvivingKeys(rows, excluded));
    forall n | 0 <= n < |rows'| ensures rows'[n].cols.Keys == columns {
      assert groups[n] in groups;
    }
  }

  /** The surviving records of the claims in `MergesRows`. */
  lemma SurvivingOfMergedClaims()
    ensures Surviving([Diagnosis("X", []), Diagnosis("Y", [])], ["X"]) == [Diagnosis("Y", [])]
    ensures Surviving([Diagnosis("Y", [])], ["X"]) == [Diagnosis("Y", [])]
  {
    assert Surviving([], ["X"]) == [];
    assert [Diagnosis("Y", [])][1..] == [];
    assert [Diagnosis("X", []), Diagnosis("Y", [])][1..] == [Diagnosis("Y", [])];
  }

  /** The groups of the claims in `MergesRows`: the same key twice. */
  lemma KeysOfMergedClaims()
    ensures SurvivingKeys([Row("A", 1, [Diagnosis("X", []), Diagnosis("Y", [])], map[]), Row("A", 1, [Diagnosis("Y", [])], map[])], ["X"])
      == [GroupKey("A", 1, map[]), GroupKey("A", 1, map[])]
  {
    var r0, r1 := Row("A", 1, [Diagnosis("X", []), Diagnosis("Y", [])], map[]), Row("A", 1, [Diagnosis("Y", [])], map[]);
    SurvivingOfMergedClaims();
    assert [r0, r1][..1] == [r0] && [r0][..0] == [];
  }

  /** The collected list of the one group in `MergesRows`. */
  lemma GatheredOfMergedClaims()
    ensures Gathered([Row("A", 1, [Diagnosis("X", []), Diagnosis("Y", [])], map[]), Row("A", 1, [Diagnosis("Y", [])], map[])], ["X"], GroupKey("A", 1, map[]))
      == [Diagnosis("Y", []), Diagnosis("Y", [])]
  {
    var r0, r1 := Row("A", 1, [Diagnosis("X", []), Diagnosis("Y", [])], map[]), Row("A", 1, [Diagnosis("Y", [])], map[]);
    SurvivingOfMergedClaims();
    assert [r0, r1][..1] == [r0] && [r0][..0] == [];
  }

  /** Two claims that differ only in a removed code become one row holding
      both claims' remaining records. */
  lemma MergesRows()
    ensures var x, y := Diagnosis("X", []), Diagnosis("Y", []);
      WithoutDiagnosisCodes([Row("A", 1, [x, y], map[]), Row("A", 1, [y], map[])], ["X"])
        == [Row("A", 1, [y, y], map[])]
  {
    KeysOfMergedClaims();
    GatheredOfMergedClaims();
    DedupOfRepeat(GroupKey("A", 1, map[]));
  }

  /** A claim whose only code is removed disappears rather than staying with
      an empty list. */
  lemma DropsEmptiedRows()
    ensures WithoutDiagnosisCodes([Row("A", 1, [Diagnosis("X", [])], map[])], ["X"]) == []
  {
    var x := Diagnosis("X", []);
    var lone := [Row("A", 1, [x], map[])];
    assert Surviving([x], ["X"]) == [] by {
      assert [x][1..] == [];
    }
    assert SurvivingKeys(lone, ["X"]) == [] by {
      assert lone[..0] == [];
    }
  }
}
