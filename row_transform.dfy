/** The per-row transform of the cleaning pass: every value is first cut to
    its column's length rule and then, in a decimal column, cut to two
    digits after the decimal point. */
module RowTransform {

  import opened Wrappers
  import opened JsText
  import opened FieldRules
  import opened Records

  /** `fieldRules[field] || value.length`: the length a value is compared
      against; a column without a rule is compared against its own length. */
  function LengthBound(field: string, value: string): (bound: nat)
    ensures |value| > bound <==> RuleFor(field).Some? && RuleFor(field).value < |value|
  {
    match RuleFor(field)
    case Some(n) => n
    case None => |value|
  }

  /** The first step: a value longer than its column's rule keeps only its
      first `rule` code units; any other value is left alone. */
  function TruncateToRule(field: string, value: string): (r: string)
    ensures r <= value
    ensures |r| == if RuleFor(field).Some? && RuleFor(field).value < |value| then RuleFor(field).value else |value|
  {
    if |value| > LengthBound(field, value) then value[..LengthBound(field, value)] else value
  }

  /** The second step, on a decimal column: `value.split(".")` cuts at
      every dot, the first two pieces are the integer and decimal parts, and
      a decimal part of more than two code units is cut to two, dropping
      everything after it. */
  function ClampDecimal(value: string): (r: string)
    ensures r <= value
  {
    var pieces := Split(value, '.');
    if |pieces| >= 2 && |pieces[1]| > 2 then
      SplitFirstTwo(value, '.');
      pieces[0] + "." + pieces[1][..2]
    else value
  }

  /** A value without a dot is never clamped. */
  lemma {:induction false} ClampDecimalNoDot(value: string)
    requires '.' !in value
    ensures ClampDecimal(value) == value
  {
  }

  /** The clamp as a statement about the text: with `a` the text before the
      first dot and `b` the piece up to the next dot or the end, a `b` longer
      than two code units leaves `a`, the dot and the first two code units of
      `b`, and any other value is left alone. */
  lemma {:induction false} ClampDecimalPieces(a: string, b: string, rest: string)
    requires '.' !in a && '.' !in b
    requires rest == "" || rest[0] == '.'
    ensures ClampDecimal(a + "." + b + rest) ==
              if |b| > 2 then a + "." + b[..2] else a + "." + b + rest
  {
    SplitLeadingPieces(a, b, rest, '.');
  }

  /** Every value holding a dot has the shape `ClampDecimalPieces` speaks of. */
  lemma {:induction false} DottedValueShape(value: string) returns (a: string, b: string, rest: string)
    requires '.' in value
    ensures value == a + "." + b + rest
    ensures '.' !in a && '.' !in b
    ensures rest == "" || rest[0] == '.'
  {
    var tail;
    a, tail := CutAtFirst(value, '.');
    b, rest := CutBeforeFirst(tail, '.');
    assert a + "." + b + rest == a + "." + (b + rest);
  }

  /** A value with exactly one dot keeps at most two code units after it. */
  lemma {:induction false} ClampDecimalSingleDot(a: string, b: string)
    requires '.' !in a && '.' !in b
    ensures ClampDecimal(a + "." + b) == a + "." + (if |b| > 2 then b[..2] else b)
  {
    ClampDecimalPieces(a, b, "");
    assert a + "." + b + "" == a + "." + b;
  }

  /** Clamping a clamped value changes nothing. */
  lemma {:induction false} ClampDecimalIdempotent(value: string)
    ensures ClampDecimal(ClampDecimal(value)) == ClampDecimal(value)
  {
    if '.' in value {
      var a, b, rest := DottedValueShape(value);
      ClampDecimalPieces(a, b, rest);
      if |b| > 2 {
        ClampDecimalSingleDot(a, b[..2]);
      } else {
        ClampDecimalPieces(a, b, rest);
      }
    }
  }

  /** The value a column ends up with: the length rule first, then the
      decimal clamp. */
  function TransformValue(field: string, value: string): (r: string)
    ensures r <= value
    ensures RuleFor(field).Some? ==> |r| <= RuleFor(field).value
    ensures RuleFor(field).None? && !IsDecimalField(field) ==> r == value
  {
    var truncated := TruncateToRule(field, value);
    if IsDecimalField(field) then ClampDecimal(truncated) else truncated
  }

  /** One `[field, value]` entry after the transform: same name, a prefix
      of the value. */
  function TransformColumn(column: Column): (c: Column)
    ensures c.name == column.name && c.value <= column.value
  {
    Column(column.name, TransformValue(column.name, column.value))
  }

  /** The row the transform produces, column by column. */
  function TransformedRow(row: Record): (out: Record)
    ensures |out| == |row|
  {
    seq(|row|, i requires 0 <= i < |row| => TransformColumn(row[i]))
  }

  /** The transformed row has the same columns in the same order; each
      value is a prefix of the original that respects its column's rule,
      and a value in a column with no rule of either kind is kept exactly. */
  lemma {:induction false} TransformedRowKeepsColumns(row: Record)
    ensures Names(TransformedRow(row)) == Names(row)
    ensures forall i :: 0 <= i < |row| ==> TransformedRow(row)[i].value <= row[i].value
    ensures forall i :: 0 <= i < |row| && RuleFor(row[i].name).Some? ==>
              |TransformedRow(row)[i].value| <= RuleFor(row[i].name).value
    ensures forall i :: 0 <= i < |row| && RuleFor(row[i].name).None? && !IsDecimalField(row[i].name) ==>
              TransformedRow(row)[i].value == row[i].value
  {
    var r := TransformedRow(row);
    forall i | 0 <= i < |row|
      ensures r[i].name == row[i].name && r[i].value == TransformValue(row[i].name, row[i].value)
    {
    }
  }

  /** Transforming a transformed value changes nothing. */
  lemma {:induction false} TransformValueIdempotent(field: string, value: string)
    ensures TransformValue(field, TransformValue(field, value)) == TransformValue(field, value)
  {
    var once := TransformValue(field, value);
    assert TruncateToRule(field, once) == once;
    if IsDecimalField(field) {
      ClampDecimalIdempotent(TruncateToRule(field, value));
    }
  }

  /** Transforming a transformed row changes nothing. */
  lemma {:induction false} TransformedRowIdempotent(row: Record)
    ensures TransformedRow(TransformedRow(row)) == TransformedRow(row)
  {
    var once := TransformedRow(row);
    forall i | 0 <= i < |once|
      ensures TransformColumn(once[i]) == once[i]
    {
      TransformValueIdempotent(row[i].name, row[i].value);
    }
  }

  /** Transforming a row with one more column at the end adds that
      column's transform at the end. */
  lemma {:induction false} TransformedRowAppend(front: Record, column: Column)
    ensures TransformedRow(front + [column]) == TransformedRow(front) + [TransformColumn(column)]
  {
  }

  /** In a row with distinct names, a column's name is not yet among the
      names of the transformed columns before it. */
  lemma {:induction false} FreshColumnName(row: Record, i: nat)
    requires DistinctNames(row) && i < |row|
    ensures row[i].name !in Names(TransformedRow(row[..i]))
  {
    TransformedRowKeepsColumns(row[..i]);
  }

  /** The body of that loop for one entry: `processedValue` starts as the
      value and is reassigned by the length rule, then by the decimal clamp. */
  method ProcessValue(field: string, value: string) returns (processedValue: string)
    ensures processedValue == TransformValue(field, value)
  {
    processedValue := value;
    if |processedValue| > LengthBound(field, processedValue) {
      processedValue := processedValue[..LengthBound(field, processedValue)];
    }
    if IsDecimalField(field) {
      var pieces := Split(processedValue, '.');
      if |pieces| >= 2 && |pieces[1]| > 2 {
        processedValue := pieces[0] + "." + pieces[1][..2];
      }
    }
  }

  /** The loop over `Object.entries(row)`: each value is reassigned step by
      step and written into a fresh row under its column's name. */
  method TransformRow(row: Record) returns (processedRow: Record)
    requires DistinctNames(row)
    ensures processedRow == TransformedRow(row)
  {
    processedRow := [];
    var i := 0;
    while i < |row|
      invariant 0 <= i <= |row|
      invariant processedRow == TransformedRow(row[..i])
    {
      var field, value := row[i].name, row[i].value;
      var processedValue := ProcessValue(field, value);
      FreshColumnName(row, i);
      processedRow := Assign(processedRow, field, processedValue);
      assert row[..i + 1] == row[..i] + [row[i]];
      TransformedRowAppend(row[..i], row[i]);
      i := i + 1;
    }
    assert row[..i] == row;
  }

  /** `results.data.map(...)`: every row transformed, none added or lost,
      order kept. */
  function TransformAll(rows: seq<Record>): (r: seq<Record>)
    ensures |r| == |rows|
    ensures forall i :: 0 <= i < |rows| ==> r[i] == TransformedRow(rows[i])
  {
    seq(|rows|, i requires 0 <= i < |rows| => TransformedRow(rows[i]))
  }
}
