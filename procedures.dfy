/**
 `add_procedure_array(procedure_column, date_column)`: per claim, the map from
 procedure code to date over the same patient's strictly earlier claims,
 then the `update_procedure_map` reduction applied to that map.

 The engine's map from `map_from_arrays` is modelled as its ordered entry
 array; under the session's `mapKeyDedupPolicy = LAST_WIN` a repeated key
 keeps its first position and takes the later value.
 */
module Procedures {
  import opened Wrappers
  import opened Table
  import opened Collections
  import opened Window

  /** The (procedure, date) pair of a row: present when the procedure cell
      holds a code and the date cell holds a date, absent when either is null. */
  function Pair(r: Row, pc: string, dc: string): (p: Option<(string, int)>)
    requires HasColumn(r, pc) && HasColumn(r, dc)
  {
    match (Lookup(r, pc), Lookup(r, dc))
    case (Text(p), Day(d)) => Some((p, d))
    case _ => None
  }

  /** A row has a pair exactly when both cells are present, and the pair is
      the two cells' values. */
  lemma PairIffBothPresent(r: Row, pc: string, dc: string)
    requires HasColumn(r, pc) && HasColumn(r, dc)
    ensures Pair(r, pc, dc).Some? <==> Lookup(r, pc).Text? && Lookup(r, dc).Day?
    ensures Pair(r, pc, dc).Some? ==> Pair(r, pc, dc).value == (Lookup(r, pc).text, Lookup(r, dc).day)
  {
  }

  /** Row `r` carries a pair whose procedure is `p`. */
  predicate Carries(r: Row, pc: string, dc: string, p: string)
    requires HasColumn(r, pc) && HasColumn(r, dc)
  {
    Pair(r, pc, dc).Some? && Pair(r, pc, dc).value.0 == p
  }

  predicate HasProcedureColumns(rows: seq<Row>, pc: string, dc: string)
  {
    ColumnEverywhere(rows, pc) && ColumnEverywhere(rows, dc)
  }

  /** Row `r'` is row `r` with its two `F.when` cells: the procedure code and
      the date where the row carries a pair, null in both otherwise. */
  predicate FilteredRow(r: Row, r': Row, pc: string, dc: string)
    requires HasColumn(r, pc) && HasColumn(r, dc)
  {
    var pair := Pair(r, pc, dc);
    && FILTERED_PROCEDURE in r'.cols && FILTERED_DATE in r'.cols
    && r'.cols[FILTERED_PROCEDURE] == (if pair.Some? then Text(pair.value.0) else Null)
    && r'.cols[FILTERED_DATE] == (if pair.Some? then Day(pair.value.1) else Null)
  }

  const PROCEDURE_ARRAY_COLUMNS := {FILTERED_PROCEDURE, FILTERED_DATE, PROCEDURE_DATE_MAP, UPDATED_PROCEDURE_DATE_MAP}

  /** The two `F.when` columns of one row: `filtered_procedure` and
      `filtered_date` are non-null exactly when the row's procedure and date
      cells are both present, and then they copy those cells. */
  function FilteredCells(r: Row, pc: string, dc: string): (r': Row)
    requires HasColumn(r, pc) && HasColumn(r, dc)
    ensures ExtendsRow(r, r', {FILTERED_PROCEDURE, FILTERED_DATE})
    ensures FilteredRow(r, r', pc, dc)
    ensures r'.cols[FILTERED_PROCEDURE] != Null <==> Pair(r, pc, dc).Some?
    ensures r'.cols[FILTERED_DATE] != Null <==> Pair(r, pc, dc).Some?
    ensures Pair(r, pc, dc).Some? ==>
      r'.cols[FILTERED_PROCEDURE] == Lookup(r, pc) && r'.cols[FILTERED_DATE] == Lookup(r, dc)
  {
    var pair := Pair(r, pc, dc);
    var r1 := WithCell(r, FILTERED_PROCEDURE, if pair.Some? then Text(pair.value.0) else Null);
    WithCell(r1, FILTERED_DATE, if pair.Some? then Day(pair.value.1) else Null)
  }

  /** `collect_list(name)` over the rows `s`: the column's non-null cells, in
      the order of `s`. */
  function CollectList(rows: seq<Row>, s: seq<int>, name: string): (cs: seq<Cell>)
    requires IsIndexSeq(rows, s) && ColumnEverywhere(rows, name)
    ensures |cs| <= |s|
    ensures forall c :: c in cs ==> c != Null
    ensures forall n :: 0 <= n < |s| && Lookup(rows[s[n]], name) != Null ==> Lookup(rows[s[n]], name) in cs
  {
    if s == [] then []
    else
      var c := Lookup(rows[s[0]], name);
      (if c != Null then [c] else []) + CollectList(rows, s[1..], name)
  }

  /** The rows of `s` that carry a (procedure, date) pair, in the order of `s`. */
  function Contributors(rows: seq<Row>, s: seq<int>, pc: string, dc: string): (c: seq<int>)
    requires IsIndexSeq(rows, s) && HasProcedureColumns(rows, pc, dc)
    ensures IsIndexSeq(rows, c)
    ensures forall n :: 0 <= n < |c| ==> Pair(rows[c[n]], pc, dc).Some?
    ensures forall j :: j in c <==> j in s && Pair(rows[j], pc, dc).Some?
  {
    if s == [] then []
    else
      var tail := Contributors(rows, s[1..], pc, dc);
      assert forall y :: y in s <==> y == s[0] || y in s[1..];
      if Pair(rows[s[0]], pc, dc).Some? then [s[0]] + tail else tail
  }

  /** Keeping only the rows that carry a pair keeps the window order. */
  lemma {:induction false} ContributorsInWindowOrder(rows: seq<Row>, s: seq<int>, pc: string, dc: string)
    requires IsIndexSeq(rows, s) && HasProcedureColumns(rows, pc, dc)
    requires InWindowOrder(rows, s)
    ensures InWindowOrder(rows, Contributors(rows, s, pc, dc))
  {
    if s != [] {
      var tail := Contributors(rows, s[1..], pc, dc);
      assert forall a, b :: 1 <= a < b < |s| ==> s[1..][a - 1] == s[a] && s[1..][b - 1] == s[b];
      ContributorsInWindowOrder(rows, s[1..], pc, dc);
      forall b | 0 <= b < |tail| ensures Precedes(rows, s[0], tail[b]) {
        assert tail[b] in tail && tail[b] in s[1..];
        var k :| 0 <= k < |s[1..]| && s[1..][k] == tail[b];
        assert s[k + 1] == tail[b];
      }
    }
  }

  /** The pairs carried by the rows `c`. */
  function PairsOf(rows: seq<Row>, c: seq<int>, pc: string, dc: string): (ps: seq<(string, int)>)
    requires IsIndexSeq(rows, c) && HasProcedureColumns(rows, pc, dc)
    requires forall n :: 0 <= n < |c| ==> Pair(rows[c[n]], pc, dc).Some?
    ensures |ps| == |c|
    ensures forall n :: 0 <= n < |c| ==> Some(ps[n]) == Pair(rows[c[n]], pc, dc)
  {
    if c == [] then []
    else
      var tail := PairsOf(rows, c[1..], pc, dc);
      assert forall n :: 1 <= n < |c| ==> c[1..][n - 1] == c[n];
      [Pair(rows[c[0]], pc, dc).value] + tail
  }

  /** The codes of the pairs `ps`, in order. */
  function CodesOf(ps: seq<(string, int)>): (keys: seq<string>)
    ensures |keys| == |ps| && forall n :: 0 <= n < |ps| ==> keys[n] == ps[n].0
  {
    seq(|ps|, n requires 0 <= n < |ps| => ps[n].0)
  }

  /** The dates of the pairs `ps`, in order. */
  function DatesOf(ps: seq<(string, int)>): (values: seq<int>)
    ensures |values| == |ps| && forall n :: 0 <= n < |ps| ==> values[n] == ps[n].1
  {
    seq(|ps|, n requires 0 <= n < |ps| => ps[n].1)
  }

  /** The cells `filtered_procedure` holds for the codes `ps`. */
  function ProcedureCells(ps: seq<(string, int)>): (cs: seq<Cell>)
  {
    if ps == [] then [] else [Text(ps[0].0)] + ProcedureCells(ps[1..])
  }

  /** The cells `filtered_date` holds for the dates of `ps`. */
  function DateCells(ps: seq<(string, int)>): (cs: seq<Cell>)
  {
    if ps == [] then [] else [Day(ps[0].1)] + DateCells(ps[1..])
  }

  /** The filtered columns exist in every row of the filtered table. */
  lemma FilteredColumnsEverywhere(rows: seq<Row>, rows': seq<Row>, pc: string, dc: string)
    requires HasProcedureColumns(rows, pc, dc)
    requires |rows'| == |rows| && forall i :: 0 <= i < |rows| ==> FilteredRow(rows[i], rows'[i], pc, dc)
    ensures ColumnEverywhere(rows', FILTERED_PROCEDURE) && ColumnEverywhere(rows', FILTERED_DATE)
  {
  }

  /** Over any run of rows `s`, `collect_list('filtered_procedure')` and
      `collect_list('filtered_date')` are the codes and the dates of the same
      pairs, position by position: equal in length and aligned. */
  lemma {:induction false} CollectedListsAligned(rows: seq<Row>, rows': seq<Row>, s: seq<int>, pc: string, dc: string)
    requires IsIndexSeq(rows, s) && HasProcedureColumns(rows, pc, dc)
    requires |rows'| == |rows| && forall i :: 0 <= i < |rows| ==> FilteredRow(rows[i], rows'[i], pc, dc)
    ensures ColumnEverywhere(rows', FILTERED_PROCEDURE) && ColumnEverywhere(rows', FILTERED_DATE)
    ensures CollectList(rows', s, FILTERED_PROCEDURE) == ProcedureCells(PairsOf(rows, Contributors(rows, s, pc, dc), pc, dc))
    ensures CollectList(rows', s, FILTERED_DATE) == DateCells(PairsOf(rows, Contributors(rows, s, pc, dc), pc, dc))
  {
    FilteredColumnsEverywhere(rows, rows', pc, dc);
    if s != [] {
      CollectedListsAligned(rows, rows', s[1..], pc, dc);
      var c := Contributors(rows, s, pc, dc);
      var tail := Contributors(rows, s[1..], pc, dc);
      assert FilteredRow(rows[s[0]], rows'[s[0]], pc, dc);
      if Pair(rows[s[0]], pc, dc).Some? {
        assert c == [s[0]] + tail;
        assert c[1..] == tail;
      } else {
        assert c == tail;
      }
    }
  }

  /** Hence the two arrays handed to `map_from_arrays` have equal length. */
  lemma CollectedListsHaveEqualLength(rows: seq<Row>, rows': seq<Row>, s: seq<int>, pc: string, dc: string)
    requires IsIndexSeq(rows, s) && HasProcedureColumns(rows, pc, dc)
    requires |rows'| == |rows| && forall i :: 0 <= i < |rows| ==> FilteredRow(rows[i], rows'[i], pc, dc)
    ensures ColumnEverywhere(rows', FILTERED_PROCEDURE) && ColumnEverywhere(rows', FILTERED_DATE)
    ensures |CollectList(rows', s, FILTERED_PROCEDURE)| == |CollectList(rows', s, FILTERED_DATE)|
  {
    CollectedListsAligned(rows, rows', s, pc, dc);
    CellsHaveEqualLength(PairsOf(rows, Contributors(rows, s, pc, dc), pc, dc));
  }

  lemma {:induction false} CellsHaveEqualLength(ps: seq<(string, int)>)
    ensures |ProcedureCells(ps)| == |DateCells(ps)| == |ps|
  {
    if ps != [] {
      CellsHaveEqualLength(ps[1..]);
    }
  }

  /** Spark's map builder under LAST_WIN: a new key is appended, a repeated
      key keeps its position and takes the new value. */
  function Put<K(==,!new), V>(es: seq<(K, V)>, k: K, v: V): (es': seq<(K, V)>)
    ensures (k, v) in es'
    ensures |es'| == if k in KeysOf(es) then |es| else |es| + 1
  {
    if k !in KeysOf(es) then es + [(k, v)]
    else if es[|es| - 1].0 == k then es[..|es| - 1] + [(k, v)]
    else Put(es[..|es| - 1], k, v) + [es[|es| - 1]]
  }

  lemma {:induction false} PutKeys<K(!new), V>(es: seq<(K, V)>, k: K, v: V)
    ensures KeysOf(Put(es, k, v)) == KeysOf(es) + {k}
  {
    if k in KeysOf(es) {
      var prefix, last := es[..|es| - 1], es[|es| - 1];
      if last.0 == k {
        assert (prefix + [(k, v)])[..|prefix|] == prefix;
      } else {
        PutKeys(prefix, k, v);
        var r' := Put(prefix, k, v);
        assert (r' + [last])[..|r'|] == r';
      }
    } else {
      assert (es + [(k, v)])[..|es|] == es;
    }
  }

  lemma {:induction false} PutKeepsKeysUnique<K(!new), V>(es: seq<(K, V)>, k: K, v: V)
    requires UniqueKeys(es)
    ensures UniqueKeys(Put(es, k, v))
  {
    if k in KeysOf(es) {
      var prefix, last := es[..|es| - 1], es[|es| - 1];
      if last.0 != k {
        assert forall n :: 0 <= n < |prefix| ==> prefix[n] == es[n];
        PutKeepsKeysUnique(prefix, k, v);
        PutKeys(prefix, k, v);
        var r' := Put(prefix, k, v);
        assert last.0 !in KeysOf(r');
        forall a, b | 0 <= a < b < |r'| + 1 ensures (r' + [last])[a].0 != (r' + [last])[b].0 {
          if b == |r'| {
            assert r'[a].0 in KeysOf(r');
          }
        }
      }
    }
  }

  lemma {:induction false} PutUpdatesMap<K(!new), V>(es: seq<(K, V)>, k: K, v: V)
    ensures AsMap(Put(es, k, v)) == AsMap(es)[k := v]
  {
    if k in KeysOf(es) {
      var prefix, last := es[..|es| - 1], es[|es| - 1];
      if last.0 == k {
        assert (prefix + [(k, v)])[..|prefix|] == prefix;
      } else {
        PutUpdatesMap(prefix, k, v);
        var r' := Put(prefix, k, v);
        assert (r' + [last])[..|r'|] == r';
        assert es[..|es| - 1] == prefix;
      }
    } else {
      assert (es + [(k, v)])[..|es|] == es;
    }
  }

  /** The entry array `map_from_arrays` builds from the pairs `ps` in order. */
  function LastWinEntries<K(==,!new), V>(ps: seq<(K, V)>): (es: seq<(K, V)>)
    ensures UniqueKeys(es)
    ensures KeysOf(es) == KeysOf(ps)
    ensures AsMap(es) == AsMap(ps)
  {
    if ps == [] then []
    else
      var prefix, last := ps[..|ps| - 1], ps[|ps| - 1];
      var es := LastWinEntries(prefix);
      PutKeys(es, last.0, last.1);
      PutKeepsKeysUnique(es, last.0, last.1);
      PutUpdatesMap(es, last.0, last.1);
      Put(es, last.0, last.1)
  }

  function Zip<K, V>(keys: seq<K>, values: seq<V>): (ps: seq<(K, V)>)
    requires |keys| == |values|
    ensures |ps| == |keys| && forall n :: 0 <= n < |keys| ==> ps[n] == (keys[n], values[n])
  {
    seq(|keys|, n requires 0 <= n < |keys| => (keys[n], values[n]))
  }

  /** `map_from_arrays(keys, values)` under LAST_WIN. The engine rejects
      arrays of different lengths; the entries have unique keys, and each key
      takes the value at its last position. */
  function MapFromArrays<K(==,!new), V>(keys: seq<K>, values: seq<V>): (es: seq<(K, V)>)
    requires |keys| == |values|
    ensures UniqueKeys(es)
    ensures forall k :: k in KeysOf(es) <==> k in keys
    ensures AsMap(es) == AsMap(Zip(keys, values))
  {
    var ps := Zip(keys, values);
    assert forall n :: 0 <= n < |keys| ==> ps[n].0 == keys[n];
    LastWinEntries(ps)
  }

  /** `v` is the largest value paired with `k` in `ps`, and is itself paired
      with `k`. */
  ghost predicate IsMaxFor(ps: seq<(string, int)>, k: string, v: int)
  {
    && (exists n :: 0 <= n < |ps| && ps[n] == (k, v))
    && forall n :: 0 <= n < |ps| && ps[n].0 == k ==> ps[n].1 <= v
  }

  /** The reduction of `update_procedure_map`: the loop's dictionary after
      the pairs `ps`, in order. */
  function LatestPerKey(ps: seq<(string, int)>): (m: map<string, int>)
    ensures ps == [] ==> m == map[]
  {
    if ps == [] then map[]
    else
      var m, last := LatestPerKey(ps[..|ps| - 1]), ps[|ps| - 1];
      if last.0 !in m || last.1 > m[last.0] then m[last.0 := last.1] else m
  }

  /** The reduction keeps exactly the keys seen. */
  lemma {:induction false} LatestPerKeyKeys(ps: seq<(string, int)>)
    ensures LatestPerKey(ps).Keys == KeysOf(ps)
  {
    if ps != [] {
      LatestPerKeyKeys(ps[..|ps| - 1]);
    }
  }

  /** The reduction's value for one key is the largest value seen for it. */
  lemma {:induction false} LatestPerKeyIsMaxAt(ps: seq<(string, int)>, k: string)
    requires k in LatestPerKey(ps)
    ensures IsMaxFor(ps, k, LatestPerKey(ps)[k])
  {
    var prefix, last := ps[..|ps| - 1], ps[|ps| - 1];
    var m, m' := LatestPerKey(prefix), LatestPerKey(ps);
    assert forall n :: 0 <= n < |prefix| ==> prefix[n] == ps[n];
    if k == last.0 && last.0 !in m {
      LatestPerKeyKeys(prefix);
      assert ps[|ps| - 1] == (k, m'[k]);
      forall n | 0 <= n < |ps| - 1 ensures ps[n].0 != k {
        assert prefix[n].0 in KeysOf(prefix);
      }
    } else {
      LatestPerKeyIsMaxAt(prefix, k);
      if k == last.0 && last.1 > m[k] {
        assert ps[|ps| - 1] == (k, m'[k]);
      } else {
        var n :| 0 <= n < |prefix| && prefix[n] == (k, m[k]);
        assert ps[n] == (k, m'[k]);
      }
    }
  }

  /** The reduction keeps exactly the keys seen, each with the largest value
      seen for it. */
  lemma LatestPerKeyIsMax(ps: seq<(string, int)>)
    ensures LatestPerKey(ps).Keys == KeysOf(ps)
    ensures forall k :: k in LatestPerKey(ps) ==> IsMaxFor(ps, k, LatestPerKey(ps)[k])
  {
    LatestPerKeyKeys(ps);
    forall k | k in LatestPerKey(ps) ensures IsMaxFor(ps, k, LatestPerKey(ps)[k]) {
      LatestPerKeyIsMaxAt(ps, k);
    }
  }

  /** `update_procedure_map`: an absent or empty map gives the empty map;
      otherwise a loop keeps, per procedure, the latest (largest) date seen. */
  method UpdateProcedureMap(procedureDateMap: Option<seq<(string, int)>>) returns (latestMap: map<string, int>)
    ensures procedureDateMap.None? || procedureDateMap.value == [] ==> latestMap == map[]
    ensures procedureDateMap.Some? ==> latestMap.Keys == KeysOf(procedureDateMap.value)
    ensures procedureDateMap.Some? ==>
      forall k :: k in latestMap ==> IsMaxFor(procedureDateMap.value, k, latestMap[k])
    ensures procedureDateMap.Some? ==> latestMap == LatestPerKey(procedureDateMap.value)
  {
    if procedureDateMap.None? || procedureDateMap.value == [] {
      return map[];
    }
    var items := procedureDateMap.value;
    latestMap := map[];
    for n := 0 to |items|
      invariant latestMap == LatestPerKey(items[..n])
    {
      var (procedure, date) := items[n];
      assert items[..n + 1][..n] == items[..n];
      if procedure !in latestMap || date > latestMap[procedure] {
        latestMap := latestMap[procedure := date];
      }
    }
    assert items[..|items|] == items;
    LatestPerKeyIsMax(items);
  }

  /** On entries whose keys are already unique the reduction changes nothing. */
  lemma {:induction false} LatestPerKeyOfUniqueKeys(es: seq<(string, int)>)
    requires UniqueKeys(es)
    ensures LatestPerKey(es) == AsMap(es)
  {
    var m, d := LatestPerKey(es), AsMap(es);
    AsMapLastWins(es);
    LatestPerKeyIsMax(es);
    forall k | k in m ensures m[k] == d[k] {
      var n :| 0 <= n < |es| && es[n] == (k, m[k]);
      assert LastWithKey(es, n);
    }
  }

  /** `es` lists the entries of `m`, each key once. */
  predicate Enumerates(es: seq<(string, int)>, m: map<string, int>)
  {
    UniqueKeys(es) && AsMap(es) == m
  }

  /** Running the reduction again over its own output, listed in any order,
      returns that output. */
  lemma {:induction false} LatestPerKeyIdempotent(ps: seq<(string, int)>, es: seq<(string, int)>)
    requires Enumerates(es, LatestPerKey(ps))
    ensures LatestPerKey(es) == LatestPerKey(ps)
  {
    LatestPerKeyOfUniqueKeys(es);
  }

  /** The pairs of row `i`'s frame, in window order. */
  function WindowPairs(rows: seq<Row>, i: int, pc: string, dc: string): seq<(string, int)>
    requires 0 <= i < |rows| && HasProcedureColumns(rows, pc, dc)
  {
    PairsOf(rows, Contributors(rows, Frame(rows, i), pc, dc), pc, dc)
  }

  /** Row `j` is the last row of `i`'s frame, in window order, that carries
      the same procedure as `j` does. */
  ghost predicate LastCarrier(rows: seq<Row>, i: int, j: int, pc: string, dc: string)
    requires 0 <= i < |rows| && 0 <= j < |rows| && HasProcedureColumns(rows, pc, dc)
    requires Pair(rows[j], pc, dc).Some?
  {
    forall j' ::
      (0 <= j' < |rows| && Before(rows, j', i) && Pair(rows[j'], pc, dc).Some?
       && Pair(rows[j'], pc, dc).value.0 == Pair(rows[j], pc, dc).value.0) ==> !Precedes(rows, j, j')
  }

  /** The entries of row `i`'s `procedure_date_map`: `map_from_arrays` of the
      two collected lists. */
  function ProcedureEntries(rows: seq<Row>, i: int, pc: string, dc: string): (es: seq<(string, int)>)
    requires 0 <= i < |rows| && HasProcedureColumns(rows, pc, dc)
    ensures UniqueKeys(es)
    ensures AsMap(es) == AsMap(WindowPairs(rows, i, pc, dc))
  {
    var ps := WindowPairs(rows, i, pc, dc);
    assert Zip(CodesOf(ps), DatesOf(ps)) == ps;
    MapFromArrays(CodesOf(ps), DatesOf(ps))
  }

  /** Row `i`'s `procedure_date_map`. */
  function ProcedureDateMap(rows: seq<Row>, i: int, pc: string, dc: string): (m: map<string, int>)
    requires 0 <= i < |rows| && HasProcedureColumns(rows, pc, dc)
    ensures m == AsMap(WindowPairs(rows, i, pc, dc))
  {
    AsMap(ProcedureEntries(rows, i, pc, dc))
  }

  /** The codes among the pairs of rows `c` are the codes those rows carry. */
  lemma PairsOfKeys(rows: seq<Row>, c: seq<int>, pc: string, dc: string)
    requires IsIndexSeq(rows, c) && HasProcedureColumns(rows, pc, dc)
    requires forall n :: 0 <= n < |c| ==> Pair(rows[c[n]], pc, dc).Some?
    ensures forall p :: p in KeysOf(PairsOf(rows, c, pc, dc)) <==>
      (exists j :: j in c && 0 <= j < |rows| && Carries(rows[j], pc, dc, p))
  {
    var ps := PairsOf(rows, c, pc, dc);
    forall p | p in KeysOf(ps)
      ensures exists j :: j in c && 0 <= j < |rows| && Carries(rows[j], pc, dc, p)
    {
      var n :| 0 <= n < |ps| && ps[n].0 == p;
      assert c[n] in c && Carries(rows[c[n]], pc, dc, p);
    }
    forall p, j | j in c && 0 <= j < |rows| && Carries(rows[j], pc, dc, p)
      ensures p in KeysOf(ps)
    {
      var n :| 0 <= n < |c| && c[n] == j;
      assert ps[n].0 == p;
    }
  }

  /** The keys of row `i`'s `procedure_date_map` are the procedures of the
      patient's strictly earlier claims that carry both a code and a date. */
  lemma ProcedureDateMapKeys(rows: seq<Row>, i: int, pc: string, dc: string)
    requires 0 <= i < |rows| && HasProcedureColumns(rows, pc, dc)
    ensures forall p :: p in ProcedureDateMap(rows, i, pc, dc) <==>
      (exists j :: 0 <= j < |rows| && Before(rows, j, i) && Carries(rows[j], pc, dc, p))
  {
    var c := Contributors(rows, Frame(rows, i), pc, dc);
    var ps := PairsOf(rows, c, pc, dc);
    AsMapLastWins(ps);
    PairsOfKeys(rows, c, pc, dc);
    assert ProcedureDateMap(rows, i, pc, dc).Keys == KeysOf(ps);
  }

  /** The pair of a last carrier is the last entry with its code among the
      frame's pairs. */
  lemma LastCarrierIsLastPair(rows: seq<Row>, i: int, j: int, pc: string, dc: string) returns (n: int)
    requires 0 <= i < |rows| && HasProcedureColumns(rows, pc, dc)
    requires 0 <= j < |rows| && Before(rows, j, i) && Pair(rows[j], pc, dc).Some?
    requires LastCarrier(rows, i, j, pc, dc)
    ensures 0 <= n < |WindowPairs(rows, i, pc, dc)|
    ensures WindowPairs(rows, i, pc, dc)[n] == Pair(rows[j], pc, dc).value
    ensures LastWithKey(WindowPairs(rows, i, pc, dc), n)
  {
    var c := Contributors(rows, Frame(rows, i), pc, dc);
    ContributorsInWindowOrder(rows, Frame(rows, i), pc, dc);
    var ps := PairsOf(rows, c, pc, dc);
    assert j in c;
    n :| 0 <= n < |c| && c[n] == j;
    forall n' | n < n' < |ps| ensures ps[n'].0 != ps[n].0 {
      assert c[n'] in c;
      assert Precedes(rows, c[n], c[n']);
    }
  }

  /** Each key of row `i`'s `procedure_date_map` maps to the date on the last
      earlier claim, in window order, that carries that procedure. */
  lemma ProcedureDateMapLastWins(rows: seq<Row>, i: int, j: int, pc: string, dc: string)
    requires 0 <= i < |rows| && HasProcedureColumns(rows, pc, dc)
    requires 0 <= j < |rows| && Before(rows, j, i) && Pair(rows[j], pc, dc).Some?
    requires LastCarrier(rows, i, j, pc, dc)
    ensures Pair(rows[j], pc, dc).value.0 in ProcedureDateMap(rows, i, pc, dc)
    ensures ProcedureDateMap(rows, i, pc, dc)[Pair(rows[j], pc, dc).value.0] == Pair(rows[j], pc, dc).value.1
  {
    var n := LastCarrierIsLastPair(rows, i, j, pc, dc);
    AsMapLastWinsAt(WindowPairs(rows, i, pc, dc), n);
  }

  /** Row `i`'s `updated_procedure_date_map`: `update_procedure_map` of its
      `procedure_date_map`. */
  function UpdatedProcedureDateMap(rows: seq<Row>, i: int, pc: string, dc: string): (m: map<string, int>)
    requires 0 <= i < |rows| && HasProcedureColumns(rows, pc, dc)
    ensures m.Keys == KeysOf(ProcedureEntries(rows, i, pc, dc))
    ensures forall p :: p in m ==> IsMaxFor(ProcedureEntries(rows, i, pc, dc), p, m[p])
  {
    LatestPerKeyIsMax(ProcedureEntries(rows, i, pc, dc));
    LatestPerKey(ProcedureEntries(rows, i, pc, dc))
  }

  /** Because LAST_WIN already left one entry per procedure, the max-date
      reduction hands back `procedure_date_map` unchanged. */
  lemma UpdatedMapEqualsProcedureDateMap(rows: seq<Row>, i: int, pc: string, dc: string)
    requires 0 <= i < |rows| && HasProcedureColumns(rows, pc, dc)
    ensures UpdatedProcedureDateMap(rows, i, pc, dc) == ProcedureDateMap(rows, i, pc, dc)
  {
    LatestPerKeyOfUniqueKeys(ProcedureEntries(rows, i, pc, dc));
  }

  /** Two earlier claims of one procedure, the later claim with the earlier
      procedure date: `map_from_arrays` keeps the later claim's date 5, so the
      reduction never sees the largest date 10 it would otherwise keep. */
  lemma LastWinKeepsLaterClaimNotLargerDate()
    ensures MapFromArrays(["P", "P"], [10, 5]) == [("P", 5)]
    ensures LatestPerKey(MapFromArrays(["P", "P"], [10, 5])) == map["P" := 5]
    ensures LatestPerKey([("P", 10), ("P", 5)]) == map["P" := 10]
  {
    var ps := [("P", 10), ("P", 5)];
    assert Zip(["P", "P"], [10, 5]) == ps;
    assert ps[..1] == [("P", 10)];
    assert [("P", 10)][..0] == [];
    assert LastWinEntries([("P", 10)]) == [("P", 10)];
    assert "P" in KeysOf([("P", 10)]);
    assert Put([("P", 10)], "P", 5) == [("P", 5)];
    assert [("P", 5)][..0] == [];
  }

  /** Row `i` after `add_procedure_array`. */
  function ProcedureArrayRow(rows: seq<Row>, i: int, pc: string, dc: string): (r: Row)
    requires 0 <= i < |rows| && HasProcedureColumns(rows, pc, dc)
    ensures ExtendsRow(rows[i], r, PROCEDURE_ARRAY_COLUMNS)
    ensures FilteredRow(rows[i], r, pc, dc)
    ensures r.cols[PROCEDURE_DATE_MAP] == DateMap(ProcedureDateMap(rows, i, pc, dc))
    ensures r.cols[UPDATED_PROCEDURE_DATE_MAP] == DateMap(ProcedureDateMap(rows, i, pc, dc))
  {
    UpdatedMapEqualsProcedureDateMap(rows, i, pc, dc);
    var r1 := WithCell(FilteredCells(rows[i], pc, dc), PROCEDURE_DATE_MAP, DateMap(ProcedureDateMap(rows, i, pc, dc)));
    WithCell(r1, UPDATED_PROCEDURE_DATE_MAP, DateMap(UpdatedProcedureDateMap(rows, i, pc, dc)))
  }

  /** The table after `add_procedure_array`: the same rows, each gaining the
      four columns; both maps of row `i` are its `procedure_date_map`. */
  function WithProcedureArray(rows: seq<Row>, pc: string, dc: string): (rows': seq<Row>)
    requires HasProcedureColumns(rows, pc, dc)
    ensures ExtendsTable(rows, rows', PROCEDURE_ARRAY_COLUMNS)
    ensures forall i :: 0 <= i < |rows| ==> rows'[i] == ProcedureArrayRow(rows, i, pc, dc)
  {
    seq(|rows|, i requires 0 <= i < |rows| => ProcedureArrayRow(rows, i, pc, dc))
  }

  /** In the table `add_procedure_array` produces, the two lists collected
      over row `i`'s window are, position by position, the codes and the
      dates of the pairs that `procedure_date_map` is built from. */
  lemma WindowListsAligned(rows: seq<Row>, i: int, pc: string, dc: string)
    requires 0 <= i < |rows| && HasProcedureColumns(rows, pc, dc)
    ensures var rows' := WithProcedureArray(rows, pc, dc);
      && ColumnEverywhere(rows', FILTERED_PROCEDURE) && ColumnEverywhere(rows', FILTERED_DATE)
      && CollectList(rows', Frame(rows', i), FILTERED_PROCEDURE) == ProcedureCells(WindowPairs(rows, i, pc, dc))
      && CollectList(rows', Frame(rows', i), FILTERED_DATE) == DateCells(WindowPairs(rows, i, pc, dc))
  {
    var rows' := WithProcedureArray(rows, pc, dc);
    assert SameOrderKeys(rows, rows') by {
      forall j | 0 <= j < |rows| ensures rows'[j].patient == rows[j].patient && rows'[j].date == rows[j].date {
        assert ExtendsRow(rows[j], rows'[j], PROCEDURE_ARRAY_COLUMNS);
      }
    }
    FrameSameOrderKeys(rows, rows', i);
    CollectedListsAligned(rows, rows', Frame(rows, i), pc, dc);
  }
}
