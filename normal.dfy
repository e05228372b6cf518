/** Statement execution over a table (src/system/commands/normal.rs): the
    row resolution and in-place assignment of UPDATE, and the FROM guard of
    SELECT. */
module Normal {
  import opened Wrappers
  import opened Base
  import opened Tables
  import SelectParser

  /** A materialised row: column name to rendered value. */
  type Row = map<string, string>

  /** One `SET column = value` of an UPDATE, value already as text. */
  datatype Assignment = Assignment(column: string, value: string)

  // ---------------------------------------------------------------------
  // Row resolution

  /** The key column: the first schema column flagged as primary key. */
  function PrimaryKey(columns: seq<ColumnAttr>): (r: Option<string>)
    ensures r.None? <==> forall i :: 0 <= i < |columns| ==> !columns[i].isPk
    ensures r.Some? ==> exists i :: 0 <= i < |columns| && columns[i].isPk && columns[i].name == r.value &&
                                    forall j :: 0 <= j < i ==> !columns[j].isPk
  {
    if columns == [] then None
    else if columns[0].isPk then Some(columns[0].name)
    else
      var r := PrimaryKey(columns[1..]);
      assert r.Some? ==> exists i :: 1 <= i < |columns| && columns[i].isPk && columns[i].name == r.value &&
                                     forall j :: 0 <= j < i ==> !columns[j].isPk by {
        if r.Some? {
          var i :| 0 <= i < |columns| - 1 && columns[1..][i].isPk && columns[1..][i].name == r.value &&
                   forall j :: 0 <= j < i ==> !columns[1..][j].isPk;
          assert forall j :: 1 <= j < i + 1 ==> !columns[j].isPk by {
            forall j | 1 <= j < i + 1 ensures !columns[j].isPk {
              assert columns[1..][j - 1] == columns[j];
            }
          }
        }
      }
      r
  }

  /** The key values of the filtered rows, in order; a row without the key
      column is the `unwrap` failure. */
  function KeyValues(filtered: seq<Row>, pk: string): (r: Result<seq<string>>)
    ensures r.Ok? <==> forall k :: 0 <= k < |filtered| ==> pk in filtered[k]
    ensures r.Err? ==> r.msg == UnwrapNone
    ensures r.Ok? ==> |r.value| == |filtered|
    ensures r.Ok? ==> forall k :: 0 <= k < |filtered| ==> r.value[k] == filtered[k][pk]
  {
    if filtered == [] then Ok([])
    else if pk !in filtered[0] then Err(UnwrapNone)
    else
      var rest :- KeyValues(filtered[1..], pk);
      Ok([filtered[0][pk]] + rest)
  }

  predicate StrictlyIncreasing(s: seq<nat>) {
    forall a, b :: 0 <= a < b < |s| ==> s[a] < s[b]
  }

  /** The storage positions whose key value is one of `ids`, ascending. */
  function RowIndices(rows: seq<Row>, ids: seq<string>, pk: string): (r: Result<seq<nat>>)
    ensures r.Ok? <==> forall k :: 0 <= k < |rows| ==> pk in rows[k]
    ensures r.Err? ==> r.msg == UnwrapNone
    ensures r.Ok? ==> StrictlyIncreasing(r.value)
    ensures r.Ok? ==> forall k :: 0 <= k < |r.value| ==> r.value[k] < |rows|
    ensures r.Ok? ==> forall ix :: 0 <= ix < |rows| ==> (ix in r.value <==> rows[ix][pk] in ids)
  {
    if rows == [] then Ok([])
    else
      var init := rows[..|rows| - 1];
      var last := rows[|rows| - 1];
      assert forall k :: 0 <= k < |init| ==> init[k] == rows[k];
      var prev :- RowIndices(init, ids, pk);
      if pk !in last then Err(UnwrapNone)
      else if last[pk] in ids then Ok(prev + [|rows| - 1])
      else Ok(prev)
  }

  /** The rows an UPDATE writes: pick the key column, take the filtered rows'
      key values, and find every stored row carrying one of them. */
  function Resolve(columns: seq<ColumnAttr>, rows: seq<Row>, filtered: seq<Row>): (r: Result<seq<nat>>)
    ensures PrimaryKey(columns).None? ==> r == Err(UnwrapNone)
    ensures r.Err? ==> r.msg == UnwrapNone
    ensures r.Ok? ==> StrictlyIncreasing(r.value) && forall k :: 0 <= k < |r.value| ==> r.value[k] < |rows|
  {
    match PrimaryKey(columns)
    case None => Err(UnwrapNone)
    case Some(pk) =>
      var ids :- KeyValues(filtered, pk);
      RowIndices(rows, ids, pk)
  }

  /** What resolution promises: it fails when no column is a key; otherwise
      the positions ascend, lie within the rows, and are exactly the rows
      whose key value equals that of some filtered row. */
  lemma ResolveSpec(columns: seq<ColumnAttr>, rows: seq<Row>, filtered: seq<Row>)
    ensures PrimaryKey(columns).None? ==> Resolve(columns, rows, filtered).Err?
    ensures Resolve(columns, rows, filtered).Ok? ==>
              var ixs, pk := Resolve(columns, rows, filtered).value, PrimaryKey(columns).value;
              && StrictlyIncreasing(ixs)
              && (forall k :: 0 <= k < |ixs| ==> ixs[k] < |rows|)
              && (forall ix :: 0 <= ix < |rows| ==>
                    (ix in ixs <==> exists f :: 0 <= f < |filtered| && filtered[f][pk] == rows[ix][pk]))
  {
    if PrimaryKey(columns).Some? {
      var pk := PrimaryKey(columns).value;
      var ids := KeyValues(filtered, pk);
      if ids.Ok? {
        forall ix | 0 <= ix < |rows| && pk in rows[ix]
          ensures rows[ix][pk] in ids.value <==> exists f :: 0 <= f < |filtered| && filtered[f][pk] == rows[ix][pk]
        {
          if rows[ix][pk] in ids.value {
            var f :| 0 <= f < |ids.value| && ids.value[f] == rows[ix][pk];
            assert filtered[f][pk] == rows[ix][pk];
          }
        }
      }
    }
  }

  /** No key value to look for: no stored row is selected. */
  lemma {:induction false} RowIndicesNoIds(rows: seq<Row>, pk: string)
    ensures RowIndices(rows, [], pk).Ok? ==> RowIndices(rows, [], pk).value == []
  {
    if rows != [] {
      var init := rows[..|rows| - 1];
      assert forall k :: 0 <= k < |init| ==> init[k] == rows[k];
      RowIndicesNoIds(init, pk);
    }
  }

  /** With no filtered row, nothing is resolved. */
  lemma ResolveNothingFiltered(columns: seq<ColumnAttr>, rows: seq<Row>)
    ensures Resolve(columns, rows, []).Ok? ==> Resolve(columns, rows, []).value == []
  {
    if PrimaryKey(columns).Some? {
      RowIndicesNoIds(rows, PrimaryKey(columns).value);
    }
  }

  // ---------------------------------------------------------------------
  // The assignment loops

  /** The inner loop: one assignment written at each resolved position, when
      the column exists. */
  function WriteColumn(m: map<string, ColumnData>, col: string, val: string, ixs: seq<nat>): (r: map<string, ColumnData>)
    ensures r.Keys == m.Keys
    ensures col !in m ==> r == m
  {
    if ixs == [] then m
    else
      var prev := WriteColumn(m, col, val, ixs[..|ixs| - 1]);
      if col in prev then prev[col := UpdateVal(prev[col], ixs[|ixs| - 1], val)] else prev
  }

  /** The outer loop: the assignments in list order. */
  function AssignAll(m: map<string, ColumnData>, assignments: seq<Assignment>, ixs: seq<nat>): (r: map<string, ColumnData>)
    ensures r.Keys == m.Keys
  {
    if assignments == [] then m
    else
      var a := assignments[|assignments| - 1];
      WriteColumn(AssignAll(m, assignments[..|assignments| - 1], ixs), a.column, a.value, ixs)
  }

  /** What one column looks like to the frame lemmas: type, length, and the
      values at positions that are not written. */
  ghost predicate SameOutside(c: ColumnData, d: ColumnData, ixs: seq<nat>) {
    && KindOf(d) == KindOf(c)
    && Len(d) == Len(c)
    && forall p :: 0 <= p < Len(c) && p !in ixs ==> CellAt(d, p) == CellAt(c, p)
  }

  lemma {:induction false} WriteColumnFrame(m: map<string, ColumnData>, col: string, val: string, ixs: seq<nat>)
    ensures WriteColumn(m, col, val, ixs).Keys == m.Keys
    ensures forall n :: n in m && n != col ==> WriteColumn(m, col, val, ixs)[n] == m[n]
    ensures col in m ==> SameOutside(m[col], WriteColumn(m, col, val, ixs)[col], ixs)
  {
    if ixs != [] {
      var init := ixs[..|ixs| - 1];
      WriteColumnFrame(m, col, val, init);
      var prev := WriteColumn(m, col, val, init);
      if col in prev {
        UpdateValFrame(prev[col], ixs[|ixs| - 1], val);
        assert forall p :: p in init ==> p in ixs;
      }
    }
  }

  /** The writes keep every column's name, type and length; an assignment to
      a column that is not in the map is skipped; a column no assignment
      names is untouched; and no position outside the resolved ones changes. */
  lemma {:induction false} AssignAllFrame(m: map<string, ColumnData>, assignments: seq<Assignment>, ixs: seq<nat>)
    ensures AssignAll(m, assignments, ixs).Keys == m.Keys
    ensures forall n :: n in m ==> SameOutside(m[n], AssignAll(m, assignments, ixs)[n], ixs)
    ensures forall n :: n in m && (forall k :: 0 <= k < |assignments| ==> assignments[k].column != n) ==>
              AssignAll(m, assignments, ixs)[n] == m[n]
  {
    if assignments != [] {
      var init := assignments[..|assignments| - 1];
      var a := assignments[|assignments| - 1];
      AssignAllFrame(m, init, ixs);
      var prev := AssignAll(m, init, ixs);
      WriteColumnFrame(prev, a.column, a.value, ixs);
      assert forall k :: 0 <= k < |init| ==> init[k] == assignments[k];
    }
  }

  /** With no resolved position the table is unchanged. */
  lemma {:induction false} AssignAllNoRows(m: map<string, ColumnData>, assignments: seq<Assignment>)
    ensures AssignAll(m, assignments, []) == m
  {
    if assignments != [] {
      AssignAllNoRows(m, assignments[..|assignments| - 1]);
    }
  }

  /** An UPDATE whose WHERE condition keeps no row leaves every column as it
      was. */
  lemma NothingFilteredUnchanged(columns: seq<ColumnAttr>, rows: seq<Row>, m: map<string, ColumnData>,
                                 assignments: seq<Assignment>)
    requires Resolve(columns, rows, []).Ok?
    ensures AssignAll(m, assignments, Resolve(columns, rows, []).value) == m
  {
    ResolveNothingFiltered(columns, rows);
    AssignAllNoRows(m, assignments);
  }

  lemma ParseCellByKind(c: ColumnData, d: ColumnData, v: string)
    requires KindOf(c) == KindOf(d)
    ensures ParseCell(c, v) == ParseCell(d, v)
  {
  }

  /** Inside one assignment, a resolved position ends up holding the
      assignment's parsed value. */
  lemma {:induction false} WriteColumnHit(m: map<string, ColumnData>, col: string, val: string, ixs: seq<nat>, ix: nat)
    requires col in m && ix in ixs && ix < Len(m[col]) && ParseCell(m[col], val).Some?
    ensures col in WriteColumn(m, col, val, ixs)
    ensures ix < Len(WriteColumn(m, col, val, ixs)[col])
    ensures CellAt(WriteColumn(m, col, val, ixs)[col], ix) == ParseCell(m[col], val).value
  {
    var init := ixs[..|ixs| - 1];
    var last := ixs[|ixs| - 1];
    WriteColumnFrame(m, col, val, init);
    var prev := WriteColumn(m, col, val, init);
    ParseCellByKind(m[col], prev[col], val);
    UpdateValFrame(prev[col], last, val);
    UpdateValWrites(prev[col], last, val);
    if ix != last {
      assert ix in init by {
        var k :| 0 <= k < |ixs| && ixs[k] == ix;
        assert k < |ixs| - 1 && init[k] == ix;
      }
      WriteColumnHit(m, col, val, init, ix);
    }
  }

  /** When several assignments name one column, the last of them decides the
      value at every resolved position (provided its text parses as the
      column's type, which a string column always does). */
  lemma {:induction false} LastAssignmentWins(m: map<string, ColumnData>, assignments: seq<Assignment>,
                                              ixs: seq<nat>, k: nat, ix: nat)
    requires k < |assignments|
    requires forall j :: k < j < |assignments| ==> assignments[j].column != assignments[k].column
    requires assignments[k].column in m && ix in ixs && ix < Len(m[assignments[k].column])
    requires ParseCell(m[assignments[k].column], assignments[k].value).Some?
    ensures assignments[k].column in AssignAll(m, assignments, ixs)
    ensures ix < Len(AssignAll(m, assignments, ixs)[assignments[k].column])
    ensures CellAt(AssignAll(m, assignments, ixs)[assignments[k].column], ix) ==
              ParseCell(m[assignments[k].column], assignments[k].value).value
  {
    var col := assignments[k].column;
    var init := assignments[..|assignments| - 1];
    var a := assignments[|assignments| - 1];
    AssignAllFrame(m, init, ixs);
    var prev := AssignAll(m, init, ixs);
    WriteColumnFrame(prev, a.column, a.value, ixs);
    if k == |assignments| - 1 {
      ParseCellByKind(m[col], prev[col], a.value);
      WriteColumnHit(prev, col, a.value, ixs, ix);
    } else {
      assert init[k] == assignments[k];
      assert forall j :: k < j < |init| ==> init[j] == assignments[j];
      LastAssignmentWins(m, init, ixs, k, ix);
    }
  }

  /** Writing keeps the table invariants. */
  lemma AssignAllConsistent(columns: seq<ColumnAttr>, m: map<string, ColumnData>,
                            assignments: seq<Assignment>, ixs: seq<nat>)
    requires Consistent(columns, m)
    ensures Consistent(columns, AssignAll(m, assignments, ixs))
  {
    AssignAllFrame(m, assignments, ixs);
  }

  /** `update_data` after the table lookup: `rows` are the table's rows and
      `filtered` those that pass the WHERE condition, both as the table
      delivers them. Resolution happens before any write, so a failure
      leaves the table as it was. Returns the resolved positions. */
  method UpdateData(tb: Table, rows: seq<Row>, filtered: seq<Row>, assignments: seq<Assignment>)
    returns (r: Result<seq<nat>>)
    modifies tb
    ensures r == Resolve(tb.columns, rows, filtered)
    ensures r.Err? ==> tb.colMap == old(tb.colMap)
    ensures r.Ok? ==> tb.colMap == AssignAll(old(tb.colMap), assignments, r.value)
    ensures old(tb.Valid()) ==> tb.Valid()
  {
    r := Resolve(tb.columns, rows, filtered);
    if r.Err? {
      return;
    }
    var rowIxs := r.value;
    ghost var m0 := tb.colMap;
    for i := 0 to |assignments|
      invariant tb.colMap == AssignAll(m0, assignments[..i], rowIxs)
    {
      var col, val := assignments[i].column, assignments[i].value;
      assert assignments[..i + 1][..i] == assignments[..i];
      ghost var before := tb.colMap;
      for j := 0 to |rowIxs|
        invariant tb.colMap == WriteColumn(before, col, val, rowIxs[..j])
      {
        assert rowIxs[..j + 1][..j] == rowIxs[..j];
        if col in tb.colMap {
          tb.colMap := tb.colMap[col := UpdateVal(tb.colMap[col], rowIxs[j], val)];
        }
      }
      assert rowIxs[..|rowIxs|] == rowIxs;
    }
    assert assignments[..|assignments|] == assignments;
    if old(tb.Valid()) {
      AssignAllConsistent(tb.columns, m0, assignments, rowIxs);
    }
  }

  // ---------------------------------------------------------------------
  // SELECT

  /** The guard of `select_data`: exactly one FROM item, which then names the
      table, or the pair of tables of a join, to fetch. */
  function SelectTables(q: SelectParser.SelectQuery): (r: Result<seq<string>>)
    ensures r.Ok? <==> |q.from| == 1
    ensures r.Ok? && q.from[0].FromString? ==> r.value == [q.from[0].tb]
    ensures r.Ok? && q.from[0].FromJoin? ==> r.value == [q.from[0].joinInfo.leftTable, q.from[0].joinInfo.rightTable]
  {
    if |q.from| != 1 then Err("assertion `left == right` failed")
    else
      match q.from[0]
      case FromJoin(info) => Ok([info.leftTable, info.rightTable])
      case FromString(tb) => Ok([tb])
  }
}
