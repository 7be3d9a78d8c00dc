/** The blank-row filter: after the transform, a row survives when at least
    one of its values is not white space only. */
module RowFilter {

  import opened JsText
  import opened Records

  /** `values.some(value => value.trim() !== '')`. */
  function SomeNonBlank(values: seq<string>): (found: bool)
    ensures found <==> exists i :: 0 <= i < |values| && !IsBlank(values[i])
  {
    if values == [] then false
    else
      TrimEmptyIffBlank(values[0]);
      Trim(values[0]) != "" || SomeNonBlank(values[1..])
  }

  /** `Object.values(row).some(value => value.trim() !== '')`: some column
      holds a code unit that is not white space; a row without columns has
      none. */
  function KeepRow(row: Record): (keep: bool)
    ensures keep <==> exists i :: 0 <= i < |row| && !IsBlank(row[i].value)
  {
    assert forall i :: 0 <= i < |row| ==> Values(row)[i] == row[i].value;
    SomeNonBlank(Values(row))
  }

  /** `rows.filter(KeepRow)`: the rows that pass, in their original order. */
  function FilterRows(rows: seq<Record>): (kept: seq<Record>)
    ensures |kept| <= |rows|
    ensures forall row :: row in kept ==> row in rows && KeepRow(row)
    ensures forall row :: row in rows && KeepRow(row) ==> row in kept
  {
    if rows == [] then []
    else (if KeepRow(rows[0]) then [rows[0]] else []) + FilterRows(rows[1..])
  }

  /** Every occurrence of a passing row is kept and every occurrence of a
      failing one dropped: a row repeated in the input is repeated as often
      in the output. */
  lemma {:induction false} FilterRowsCounts(rows: seq<Record>)
    ensures forall row :: multiset(FilterRows(rows))[row] ==
              if KeepRow(row) then multiset(rows)[row] else 0
  {
    if rows != [] {
      FilterRowsCounts(rows[1..]);
      assert rows == [rows[0]] + rows[1..];
    }
  }

  /** `sub` is `s` with some elements left out and the rest in their order. */
  predicate IsSubsequence<T(==)>(sub: seq<T>, s: seq<T>)
    decreases |s|
  {
    if sub == [] then true
    else if s == [] then false
    else (sub[0] == s[0] && IsSubsequence(sub[1..], s[1..])) || IsSubsequence(sub, s[1..])
  }

  /** The kept rows appear in the order they had. */
  lemma {:induction false} FilterRowsIsSubsequence(rows: seq<Record>)
    ensures IsSubsequence(FilterRows(rows), rows)
  {
    if rows != [] {
      FilterRowsIsSubsequence(rows[1..]);
      var rest := FilterRows(rows[1..]);
      if KeepRow(rows[0]) {
        assert FilterRows(rows) == [rows[0]] + rest;
        assert ([rows[0]] + rest)[1..] == rest;
      } else {
        assert FilterRows(rows) == rest;
      }
    }
  }

  /** Filtering works row by row: filtering two runs of rows one after the
      other gives the filtered first run followed by the filtered second. */
  lemma {:induction false} FilterRowsAppend(a: seq<Record>, b: seq<Record>)
    ensures FilterRows(a + b) == FilterRows(a) + FilterRows(b)
  {
    if a == [] {
      assert a + b == b;
    } else {
      assert (a + b)[0] == a[0];
      assert (a + b)[1..] == a[1..] + b;
      FilterRowsAppend(a[1..], b);
    }
  }

  /** Rows that all pass are kept as they are; in particular filtering a
      filtered sequence changes nothing. */
  lemma {:induction false} FilterRowsAllKept(rows: seq<Record>)
    requires forall row :: row in rows ==> KeepRow(row)
    ensures FilterRows(rows) == rows
  {
    if rows != [] {
      assert rows[0] in rows;
      FilterRowsAllKept(rows[1..]);
    }
  }
}
