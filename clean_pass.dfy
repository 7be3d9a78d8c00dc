/** The data part of `transformCSV`: the parsed rows are transformed one by
    one and the rows left blank are dropped. */
module CleanPass {

  import opened JsText
  import opened FieldRules
  import opened Records
  import opened RowTransform
  import opened RowFilter

  /** `transformedData.filter(...)` over `results.data.map(...)`: no more
      rows than came in, each one the transform of an input row and not
      blank. */
  function CleanRows(rows: seq<Record>): (cleaned: seq<Record>)
    ensures |cleaned| <= |rows|
    ensures forall row :: row in cleaned ==> row in TransformAll(rows) && KeepRow(row)
  {
    FilterRows(TransformAll(rows))
  }

  /** Every surviving row is the transform of an input row, keeps that row's
      columns, and every value in it respects its column's length rule. */
  lemma {:induction false} CleanRowsRespectRules(rows: seq<Record>)
    ensures forall row :: row in CleanRows(rows) ==>
              exists j :: 0 <= j < |rows| && row == TransformedRow(rows[j])
    ensures forall row: Record, i :: row in CleanRows(rows) && 0 <= i < |row| && RuleFor(row[i].name).Some? ==>
              |row[i].value| <= RuleFor(row[i].name).value
  {
    var all := TransformAll(rows);
    forall row | row in CleanRows(rows)
      ensures exists j :: 0 <= j < |rows| && row == TransformedRow(rows[j])
    {
      var j :| 0 <= j < |all| && all[j] == row;
      assert row == TransformedRow(rows[j]);
    }
    forall row: Record, i | row in CleanRows(rows) && 0 <= i < |row| && RuleFor(row[i].name).Some?
      ensures |row[i].value| <= RuleFor(row[i].name).value
    {
      var j :| 0 <= j < |all| && all[j] == row;
      TransformedRowKeepsColumns(rows[j]);
      assert Names(row)[i] == Names(rows[j])[i];
    }
  }

  /** An input row is represented in the output exactly when its transform
      has a value that is not white space only, as many times as it occurs
      among the transformed rows; the output keeps the order of the input. */
  lemma {:induction false} CleanRowsKeepsExactly(rows: seq<Record>)
    ensures forall j :: 0 <= j < |rows| ==>
              (TransformedRow(rows[j]) in CleanRows(rows) <==> KeepRow(TransformedRow(rows[j])))
    ensures IsSubsequence(CleanRows(rows), TransformAll(rows))
    ensures forall row :: multiset(CleanRows(rows))[row] ==
              if KeepRow(row) then multiset(TransformAll(rows))[row] else 0
  {
    var all := TransformAll(rows);
    forall j | 0 <= j < |rows|
      ensures TransformedRow(rows[j]) in CleanRows(rows) <==> KeepRow(TransformedRow(rows[j]))
    {
      assert all[j] == TransformedRow(rows[j]);
    }
    FilterRowsIsSubsequence(all);
    FilterRowsCounts(all);
  }

  /** Cleaning cleaned rows changes nothing. */
  lemma {:induction false} CleanRowsIdempotent(rows: seq<Record>)
    ensures CleanRows(CleanRows(rows)) == CleanRows(rows)
  {
    var once := CleanRows(rows);
    var all := TransformAll(rows);
    forall k | 0 <= k < |once|
      ensures TransformedRow(once[k]) == once[k]
    {
      assert once[k] in all;
      var j :| 0 <= j < |all| && all[j] == once[k];
      TransformedRowIdempotent(rows[j]);
    }
    assert TransformAll(once) == once;
    FilterRowsAllKept(once);
  }

  /** On a single row the pass is the transform followed by the test. */
  lemma {:induction false} CleanSingleRow(row: Record)
    ensures CleanRows([row]) == if KeepRow(TransformedRow(row)) then [TransformedRow(row)] else []
  {
    assert TransformAll([row]) == [TransformedRow(row)];
    assert [TransformedRow(row)][1..] == [];
  }

  /** A row that is blank before the transform is blank after it, and the
      pass drops it. */
  lemma {:induction false} BlankRowStaysBlank(row: Record)
    requires forall i :: 0 <= i < |row| ==> IsBlank(row[i].value)
    ensures !KeepRow(TransformedRow(row))
    ensures CleanRows([row]) == []
  {
    var out := TransformedRow(row);
    TransformedRowKeepsColumns(row);
    forall i | 0 <= i < |out|
      ensures IsBlank(out[i].value)
    {
      BlankPrefix(out[i].value, row[i].value);
    }
    CleanSingleRow(row);
  }
}
